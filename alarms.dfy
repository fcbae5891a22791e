/**
 * The alarms section: the alarms kept in the cache, the per-minute tick that
 * fires them, the snooze map and the fullscreen alarm queue.  The wall clock is
 * a parameter: the minute of the day `clock`, the seconds into that minute and
 * the weekday `today` (Sunday is 0, as `Date.getDay` counts).
 */
module Alarms {
  import opened Options
  import opened Text
  import Dates

  /** A minute of the day, 00:00 .. 23:59. */
  type Minute = m: int | 0 <= m < 1440

  /** `format('%H:%M')` of a minute of the day. */
  function TimeStr(m: Minute): (r: string)
    ensures |r| == 5 && r[2] == ':'
  {
    Pad2(m / 60) + ":" + Pad2(m % 60)
  }

  /** Reads back an `HH:MM` string: two digits, a colon, two digits, hours below 24 and minutes below 60. */
  function ClockOf(s: string): Option<Minute>
  {
    if |s| == 5 && s[2] == ':' && AllDigits(s[..2]) && AllDigits(s[3..])
       && NatOf(s[..2]) < 24 && NatOf(s[3..]) < 60
    then Some(NatOf(s[..2]) * 60 + NatOf(s[3..]))
    else None
  }

  lemma TimeStrRoundTrip(m: Minute)
    ensures ClockOf(TimeStr(m)) == Some(m)
  {
    var r := TimeStr(m);
    assert r[..2] == Pad2(m / 60);
    assert r[3..] == Pad2(m % 60);
  }

  lemma ClockOfRoundTrip(s: string)
    requires ClockOf(s).Some?
    ensures TimeStr(ClockOf(s).value) == s
  {
    var h, mi := NatOf(s[..2]), NatOf(s[3..]);
    Dates.Pad2OfDigits(s[..2]);
    Dates.Pad2OfDigits(s[3..]);
    assert (h * 60 + mi) / 60 == h && (h * 60 + mi) % 60 == mi;
    assert s == s[..2] + ":" + s[3..];
  }

  /** Two minutes of the day have the same `HH:MM` exactly when they are the same minute. */
  lemma TimeStrInjective(m: Minute, n: Minute)
    ensures TimeStr(m) == TimeStr(n) <==> m == n
  {
    if TimeStr(m) == TimeStr(n) {
      TimeStrRoundTrip(m);
      TimeStrRoundTrip(n);
    }
  }

  /** The `HH:MM` that lies `dur` minutes after `clock`, wrapping past midnight. */
  function SnoozeTime(clock: Minute, dur: int): (r: string)
    ensures ClockOf(r) == Some((clock + dur) % 1440)
  {
    TimeStrRoundTrip((clock + dur) % 1440);
    TimeStr((clock + dur) % 1440)
  }

  /** A tick at minute `now` matches a snooze taken at `clock` for `dur` minutes exactly when `now` is `dur` minutes (mod a day) after `clock`. */
  lemma SnoozeMatchesAt(clock: Minute, dur: int, now: Minute)
    ensures TimeStr(now) == SnoozeTime(clock, dur) <==> now == (clock + dur) % 1440
  {
    TimeStrInjective(now, (clock + dur) % 1440);
  }

  /** An alarm as the cache stores it. */
  class Alarm {
    var timeStr: string
    var msg: string
    /** Weekdays on which the alarm rings (Sunday is 0). */
    var days: seq<int>
    var toggle: bool
    /** Snooze duration in minutes. */
    var snoozeDur: int
    var repeatSound: bool

    /** The object the editor emits with 'add-alarm': switched on. */
    constructor(timeStr: string, msg: string, days: seq<int>, snoozeDur: int, repeatSound: bool)
      ensures this.timeStr == timeStr && this.msg == msg && this.days == days
      ensures this.snoozeDur == snoozeDur && this.repeatSound == repeatSound && toggle
    {
      this.timeStr := timeStr;
      this.msg := msg;
      this.days := days;
      this.snoozeDur := snoozeDur;
      this.repeatSound := repeatSound;
      toggle := true;
    }

    /** Switched on and ringing on weekday `today`. */
    predicate OnToday(today: int)
      reads this
    {
      toggle && today in days
    }

    /** The tick's firing rule: on, set to `time`, and ringing on weekday `today`. */
    predicate FiresAt(time: string, today: int)
      reads this
    {
      toggle && timeStr == time && today in days
    }
  }

  /** Some alarm of `list` is on and rings on weekday `today`. */
  predicate AnyToday(list: seq<Alarm>, today: int)
    reads list
  {
    exists i :: 0 <= i < |list| && list[i].OnToday(today)
  }

  /** The alarms of `list` that fire at `time` on `today`, in list order. */
  function Due(list: seq<Alarm>, time: string, today: int): seq<Alarm>
    reads list
  {
    if |list| == 0 then []
    else Due(list[..|list| - 1], time, today) + (if list[|list| - 1].FiresAt(time, today) then [list[|list| - 1]] else [])
  }

  lemma {:induction false} DueMembers(list: seq<Alarm>, time: string, today: int)
    ensures forall a :: a in Due(list, time, today) <==> a in list && a.FiresAt(time, today)
  {
    if |list| > 0 {
      DueMembers(list[..|list| - 1], time, today);
      assert list == list[..|list| - 1] + [list[|list| - 1]];
    }
  }

  /** `filter(a => a !== alarm)`. */
  function Remove(list: seq<Alarm>, a: Alarm): (r: seq<Alarm>)
    ensures forall b :: b in r ==> b in list && b != a
    ensures forall b :: b in list && b != a ==> b in r
  {
    if |list| == 0 then []
    else if list[0] == a then Remove(list[1..], a)
    else [list[0]] + Remove(list[1..], a)
  }

  predicate Distinct(list: seq<Alarm>)
  {
    forall i, j :: 0 <= i < j < |list| ==> list[i] != list[j]
  }

  /** In a list without repeats, removing the alarm at `i` keeps the others, in order. */
  lemma {:induction false} RemoveAt(list: seq<Alarm>, i: nat)
    requires Distinct(list) && i < |list|
    ensures Remove(list, list[i]) == list[..i] + list[i + 1..]
  {
    if i == 0 {
      RemoveAbsent(list[1..], list[0]);
    } else {
      RemoveAt(list[1..], i - 1);
      assert list[1..][..i - 1] == list[1..i];
      assert list[..i] == [list[0]] + list[1..i];
    }
  }

  lemma {:induction false} RemoveAbsent(list: seq<Alarm>, a: Alarm)
    requires a !in list
    ensures Remove(list, a) == list
  {
    if |list| > 0 {
      RemoveAbsent(list[1..], a);
      assert list == [list[0]] + list[1..];
    }
  }

  lemma {:induction false} RemoveDistinct(list: seq<Alarm>, a: Alarm)
    requires Distinct(list)
    ensures Distinct(Remove(list, a))
  {
    if |list| > 0 {
      RemoveDistinct(list[1..], a);
      assert Distinct(list[1..]) by {
        forall i, j | 0 <= i < j < |list[1..]| ensures list[1..][i] != list[1..][j] {
          assert list[1..][i] == list[i + 1] && list[1..][j] == list[j + 1];
        }
      }
      assert list[0] !in list[1..];
    }
  }

  /**
   * One entry of the snooze map: the alarm and the `HH:MM` it is snoozed to.
   * The map is a JavaScript `Map`, iterated in insertion order, so it is kept
   * as a sequence of entries with distinct alarms.
   */
  datatype Entry = Entry(alarm: Alarm, time: string)

  predicate DistinctKeys(m: seq<Entry>)
  {
    forall i, j :: 0 <= i < j < |m| ==> m[i].alarm != m[j].alarm
  }

  /** `Map.get`. */
  function Lookup(m: seq<Entry>, a: Alarm): Option<string>
  {
    if |m| == 0 then None
    else if m[0].alarm == a then Some(m[0].time)
    else Lookup(m[1..], a)
  }

  /** `Map.set`: a key already present keeps its place and gets the new time; a new key goes last. */
  function Put(m: seq<Entry>, a: Alarm, t: string): (r: seq<Entry>)
    ensures |r| == if Lookup(m, a).Some? then |m| else |m| + 1
    ensures forall k :: 0 <= k < |m| ==> r[k].alarm == m[k].alarm
    ensures Lookup(m, a).None? ==> r[|m|] == Entry(a, t)
  {
    if |m| == 0 then [Entry(a, t)]
    else if m[0].alarm == a then [Entry(a, t)] + m[1..]
    else [m[0]] + Put(m[1..], a, t)
  }

  /** `Map.delete`. */
  function Delete(m: seq<Entry>, a: Alarm): seq<Entry>
  {
    if |m| == 0 then []
    else if m[0].alarm == a then Delete(m[1..], a)
    else [m[0]] + Delete(m[1..], a)
  }

  /** `Map.delete` keeps exactly the entries of the other keys. */
  lemma {:induction false} DeleteMembers(m: seq<Entry>, a: Alarm)
    ensures forall e :: e in Delete(m, a) ==> e in m && e.alarm != a
    ensures forall e :: e in m && e.alarm != a ==> e in Delete(m, a)
  {
    if |m| > 0 {
      DeleteMembers(m[1..], a);
      assert m == [m[0]] + m[1..];
    }
  }

  /** After `Map.set`, the key holds the new time and every other key is unchanged. */
  lemma {:induction false} LookupPut(m: seq<Entry>, a: Alarm, t: string, b: Alarm)
    ensures Lookup(Put(m, a, t), b) == if b == a then Some(t) else Lookup(m, b)
  {
    if |m| > 0 && m[0].alarm != a {
      LookupPut(m[1..], a, t, b);
    }
  }

  /** After `Map.delete`, the key is absent and every other key is unchanged. */
  lemma {:induction false} LookupDelete(m: seq<Entry>, a: Alarm, b: Alarm)
    ensures Lookup(Delete(m, a), b) == if b == a then None else Lookup(m, b)
  {
    if |m| > 0 {
      LookupDelete(m[1..], a, b);
    }
  }

  lemma {:induction false} PutDistinct(m: seq<Entry>, a: Alarm, t: string)
    requires DistinctKeys(m)
    ensures DistinctKeys(Put(m, a, t))
  {
    var r := Put(m, a, t);
    if Lookup(m, a).None? {
      LookupNone(m, a);
      assert r[|m|].alarm == a;
    }
  }

  lemma {:induction false} LookupNone(m: seq<Entry>, a: Alarm)
    requires Lookup(m, a).None?
    ensures forall k :: 0 <= k < |m| ==> m[k].alarm != a
  {
    if |m| > 0 {
      LookupNone(m[1..], a);
      forall k | 1 <= k < |m| ensures m[k].alarm != a {
        assert m[k] == m[1..][k - 1];
      }
    }
  }

  lemma DistinctKeysTail(m: seq<Entry>)
    requires DistinctKeys(m) && |m| > 0
    ensures DistinctKeys(m[1..])
  {
    forall p, q | 0 <= p < q < |m| - 1 ensures m[1..][p].alarm != m[1..][q].alarm {
      assert m[1..][p] == m[p + 1] && m[1..][q] == m[q + 1];
    }
  }

  lemma DistinctKeysCons(e: Entry, r: seq<Entry>)
    requires DistinctKeys(r) && forall x :: x in r ==> x.alarm != e.alarm
    ensures DistinctKeys([e] + r)
  {
    var s := [e] + r;
    forall i, j | 0 <= i < j < |s| ensures s[i].alarm != s[j].alarm {
      assert s[j] == r[j - 1] && r[j - 1] in r;
      if i > 0 {
        assert s[i] == r[i - 1];
      }
    }
  }

  lemma DistinctKeysSnoc(r: seq<Entry>, e: Entry)
    requires DistinctKeys(r) && forall x :: x in r ==> x.alarm != e.alarm
    ensures DistinctKeys(r + [e])
  {
    var s := r + [e];
    forall i, j | 0 <= i < j < |s| ensures s[i].alarm != s[j].alarm {
      assert s[i] == r[i] && r[i] in r;
      if j < |r| {
        assert s[j] == r[j];
      }
    }
  }

  lemma {:induction false} DeleteDistinct(m: seq<Entry>, a: Alarm)
    requires DistinctKeys(m)
    ensures DistinctKeys(Delete(m, a))
  {
    if |m| > 0 {
      DistinctKeysTail(m);
      DeleteDistinct(m[1..], a);
      DeleteMembers(m[1..], a);
      if m[0].alarm != a {
        forall x | x in Delete(m[1..], a) ensures x.alarm != m[0].alarm {
          assert x in m[1..];
          var k :| 0 <= k < |m[1..]| && m[1..][k] == x;
          assert m[k + 1] == x;
        }
        DistinctKeysCons(m[0], Delete(m[1..], a));
      }
    }
  }

  /** A snooze entry whose alarm is on and whose time is `time` fires at that tick. */
  predicate SnoozeFires(e: Entry, time: string)
    reads e.alarm
  {
    e.alarm.toggle && e.time == time
  }

  /** The alarms the tick fires from the snooze map, in map order. */
  function SnoozeDue(m: seq<Entry>, time: string): seq<Alarm>
    reads set e | e in m :: e.alarm
  {
    if |m| == 0 then []
    else SnoozeDue(m[..|m| - 1], time) + (if SnoozeFires(m[|m| - 1], time) then [m[|m| - 1].alarm] else [])
  }

  /** The snooze map after the tick has deleted the entries it fired. */
  function SnoozeLeft(m: seq<Entry>, time: string): seq<Entry>
    reads set e | e in m :: e.alarm
  {
    if |m| == 0 then []
    else SnoozeLeft(m[..|m| - 1], time) + (if SnoozeFires(m[|m| - 1], time) then [] else [m[|m| - 1]])
  }

  /** The tick fires exactly the snoozed alarms that are on and due, and keeps exactly the other entries. */
  lemma {:induction false} SnoozeSplit(m: seq<Entry>, time: string)
    ensures forall a :: a in SnoozeDue(m, time) <==> exists e :: e in m && e.alarm == a && SnoozeFires(e, time)
    ensures forall e :: e in SnoozeLeft(m, time) <==> e in m && !SnoozeFires(e, time)
  {
    if |m| > 0 {
      var init := m[..|m| - 1];
      SnoozeSplit(init, time);
      assert m == init + [m[|m| - 1]];
    }
  }

  /** The entries the tick keeps are entries of the map. */
  lemma {:induction false} SnoozeLeftSub(m: seq<Entry>, time: string)
    ensures forall e :: e in SnoozeLeft(m, time) ==> e in m
  {
    if |m| > 0 {
      var init := m[..|m| - 1];
      SnoozeLeftSub(init, time);
      assert m == init + [m[|m| - 1]];
    }
  }

  /** One more entry visited by the tick. */
  lemma SnoozeStep(m: seq<Entry>, i: nat, time: string)
    requires i < |m|
    ensures SnoozeDue(m[..i + 1], time) == SnoozeDue(m[..i], time) + (if SnoozeFires(m[i], time) then [m[i].alarm] else [])
    ensures SnoozeLeft(m[..i + 1], time) == SnoozeLeft(m[..i], time) + (if SnoozeFires(m[i], time) then [] else [m[i]])
  {
    assert m[..i + 1][..i] == m[..i];
  }

  /** The tick's walk over the snooze map, one entry further. */
  lemma ScanStep(m: seq<Entry>, i: nat, time: string, left: seq<Entry>)
    requires DistinctKeys(m) && i < |m| && left == SnoozeLeft(m[..i], time) + m[i..]
    ensures SnoozeDue(m[..i + 1], time) == SnoozeDue(m[..i], time) + (if SnoozeFires(m[i], time) then [m[i].alarm] else [])
    ensures (if SnoozeFires(m[i], time) then Delete(left, m[i].alarm) else left) == SnoozeLeft(m[..i + 1], time) + m[i + 1..]
  {
    SnoozeStep(m, i, time);
    var p := SnoozeLeft(m[..i], time);
    if SnoozeFires(m[i], time) {
      DeleteVisited(m, i, time);
    } else {
      assert m[i..] == [m[i]] + m[i + 1..];
      assert p + ([m[i]] + m[i + 1..]) == (p + [m[i]]) + m[i + 1..];
    }
  }

  /** With distinct keys, an alarm fired from the snooze map has no entry left. */
  lemma SnoozeFiredGone(m: seq<Entry>, time: string, a: Alarm)
    requires DistinctKeys(m) && a in SnoozeDue(m, time)
    ensures Lookup(SnoozeLeft(m, time), a).None?
  {
    SnoozeSplit(m, time);
    var e :| e in m && e.alarm == a && SnoozeFires(e, time);
    if Lookup(SnoozeLeft(m, time), a).Some? {
      var f := LookupEntry(SnoozeLeft(m, time), a);
      assert false;
    }
  }

  lemma KeyUnique(m: seq<Entry>, e: Entry, f: Entry)
    requires DistinctKeys(m) && e in m && f in m && e.alarm == f.alarm
    ensures e == f
  {
    var i :| 0 <= i < |m| && m[i] == e;
    var j :| 0 <= j < |m| && m[j] == f;
  }

  /**
   * A switched-on alarm snoozed at minute `clock` fires at the tick of minute
   * `now` exactly when `now` is its snooze duration after `clock`.
   */
  lemma SnoozedFiresAt(m: seq<Entry>, a: Alarm, clock: Minute, now: Minute)
    requires DistinctKeys(m) && a.toggle && Lookup(m, a) == Some(SnoozeTime(clock, a.snoozeDur))
    ensures a in SnoozeDue(m, TimeStr(now)) <==> now == (clock + a.snoozeDur) % 1440
  {
    var time := TimeStr(now);
    var e := LookupEntry(m, a);
    SnoozeSplit(m, time);
    SnoozeMatchesAt(clock, a.snoozeDur, now);
    if a in SnoozeDue(m, time) {
      var f :| f in m && f.alarm == a && SnoozeFires(f, time);
      KeyUnique(m, e, f);
    } else {
      assert !SnoozeFires(e, time);
    }
  }

  /** ... and the tick at that minute leaves no snooze entry for it. */
  lemma SnoozedCleared(m: seq<Entry>, a: Alarm, clock: Minute)
    requires DistinctKeys(m) && a.toggle && Lookup(m, a) == Some(SnoozeTime(clock, a.snoozeDur))
    ensures Lookup(SnoozeLeft(m, SnoozeTime(clock, a.snoozeDur)), a).None?
  {
    var e := LookupEntry(m, a);
    SnoozeSplit(m, SnoozeTime(clock, a.snoozeDur));
    assert SnoozeFires(e, SnoozeTime(clock, a.snoozeDur));
    SnoozeFiredGone(m, SnoozeTime(clock, a.snoozeDur), a);
  }

  lemma {:induction false} LookupEntry(m: seq<Entry>, a: Alarm) returns (e: Entry)
    requires Lookup(m, a).Some?
    ensures e in m && e.alarm == a && e.time == Lookup(m, a).value
  {
    if m[0].alarm == a {
      e := m[0];
    } else {
      e := LookupEntry(m[1..], a);
    }
  }

  lemma {:induction false} SnoozeLeftDistinct(m: seq<Entry>, time: string)
    requires DistinctKeys(m)
    ensures DistinctKeys(SnoozeLeft(m, time))
  {
    if |m| > 0 {
      var init := m[..|m| - 1];
      var last := m[|m| - 1];
      assert DistinctKeys(init) by {
        forall p, q | 0 <= p < q < |init| ensures init[p].alarm != init[q].alarm {
          assert init[p] == m[p] && init[q] == m[q];
        }
      }
      SnoozeLeftDistinct(init, time);
      if !SnoozeFires(last, time) {
        SnoozeLeftSub(init, time);
        forall x | x in SnoozeLeft(init, time) ensures x.alarm != last.alarm {
          assert x in init;
          var k :| 0 <= k < |init| && init[k] == x;
          assert m[k] == x;
        }
        DistinctKeysSnoc(SnoozeLeft(init, time), last);
      }
    }
  }

  /** No entry the tick kept before position `i` has the alarm at `i`. */
  lemma VisitedOthers(m: seq<Entry>, i: nat, time: string)
    requires DistinctKeys(m) && i < |m|
    ensures forall e :: e in SnoozeLeft(m[..i], time) ==> e.alarm != m[i].alarm
  {
    SnoozeLeftSub(m[..i], time);
    forall e | e in SnoozeLeft(m[..i], time) ensures e.alarm != m[i].alarm {
      assert e in m[..i];
      var k :| 0 <= k < i && m[..i][k] == e;
      assert m[k] == e;
    }
  }

  /** No entry after position `i` has the alarm at `i`. */
  lemma RestOthers(m: seq<Entry>, i: nat)
    requires DistinctKeys(m) && i < |m|
    ensures forall e :: e in m[i + 1..] ==> e.alarm != m[i].alarm
  {
    forall e | e in m[i + 1..] ensures e.alarm != m[i].alarm {
      var k :| 0 <= k < |m[i + 1..]| && m[i + 1..][k] == e;
      assert m[i + 1 + k] == e;
    }
  }

  /** Deleting the entry at `i` from the tick's partial result and the unvisited rest. */
  lemma DeleteVisited(m: seq<Entry>, i: nat, time: string)
    requires DistinctKeys(m) && i < |m|
    ensures Delete(SnoozeLeft(m[..i], time) + m[i..], m[i].alarm) == SnoozeLeft(m[..i], time) + m[i + 1..]
  {
    var a := m[i].alarm;
    var p := SnoozeLeft(m[..i], time);
    VisitedOthers(m, i, time);
    RestOthers(m, i);
    hide SnoozeLeft, DistinctKeys;
    DeleteAbsent(p, a);
    DeleteAbsent(m[i + 1..], a);
    DeleteAppend(p, m[i..], a);
    assert m[i..] == [m[i]] + m[i + 1..];
  }

  lemma {:induction false} DeleteAbsent(m: seq<Entry>, a: Alarm)
    requires forall e :: e in m ==> e.alarm != a
    ensures Delete(m, a) == m
  {
    if |m| > 0 {
      assert m[0] in m;
      assert m == [m[0]] + m[1..];
      DeleteAbsent(m[1..], a);
    }
  }

  lemma DeleteCons(e: Entry, r: seq<Entry>, a: Alarm)
    ensures Delete([e] + r, a) == (if e.alarm == a then [] else [e]) + Delete(r, a)
  {
    assert ([e] + r)[1..] == r;
  }

  lemma {:induction false} DeleteAppend(p: seq<Entry>, q: seq<Entry>, a: Alarm)
    ensures Delete(p + q, a) == Delete(p, a) + Delete(q, a)
  {
    if |p| > 0 {
      var x := if p[0].alarm == a then [] else [p[0]];
      DeleteAppend(p[1..], q, a);
      assert p + q == [p[0]] + (p[1..] + q);
      DeleteCons(p[0], p[1..] + q, a);
      assert p == [p[0]] + p[1..];
      DeleteCons(p[0], p[1..], a);
      assert x + (Delete(p[1..], a) + Delete(q, a)) == (x + Delete(p[1..], a)) + Delete(q, a);
    } else {
      assert p + q == q;
    }
  }

  /** The fullscreen alarm window and its queue of alarms that went off. */
  class Fullscreen {
    var queue: seq<Alarm>
    /** Single-alarm banner mode (banner and snooze button) rather than the list of alarm cards. */
    var banner: bool
    var isOpen: bool

    constructor()
      ensures queue == [] && !isOpen
    {
      queue := [];
      banner := false;
      isOpen := false;
    }

    /**
     * The window after the alarms `sent` went through `_send_notif`, starting
     * from queue `q0`, open flag `open0` and mode `banner0`: in fullscreen
     * style they are queued and the last one decides the mode.
     */
    ghost predicate After(q0: seq<Alarm>, open0: bool, banner0: bool, fullscreenStyle: bool, sent: seq<Alarm>)
      reads this
    {
      && queue == q0 + (if fullscreenStyle then sent else [])
      && if fullscreenStyle && sent != [] then isOpen && (banner <==> |queue| == 1)
         else isOpen == open0 && banner == banner0
    }

    /** `fire_alarm`: queue the alarm and open the window. */
    method FireAlarm(a: Alarm)
      modifies this
      ensures queue == old(queue) + [a]
      ensures banner <==> |queue| == 1
      ensures isOpen
    {
      queue := queue + [a];
      if |queue| == 1 {
        banner := true;
      } else {
        banner := false;
      }
      isOpen := true;
    }

    /** `close`: empty the queue and close the window. */
    method Close()
      modifies this`queue, this`isOpen
      ensures queue == [] && !isOpen
    {
      queue := [];
      isOpen := false;
    }

    /** The snooze button: snooze the first queued alarm, if any, then close. */
    method SnoozeClicked(delegate: AlarmSection, clock: Minute)
      requires delegate.Valid()
      modifies this`queue, this`isOpen, delegate`snoozed
      ensures delegate.Valid()
      ensures delegate.snoozed == if |old(queue)| > 0
        then Put(old(delegate.snoozed), old(queue)[0], SnoozeTime(clock, old(queue[0].snoozeDur)))
        else old(delegate.snoozed)
      ensures queue == [] && !isOpen
    {
      if |queue| > 0 {
        delegate.SnoozeAlarm(queue[0], clock);
      }
      Close();
    }
  }

  /** The alarms section's state. */
  class AlarmSection {
    /** `cache.alarms`. */
    var alarms: seq<Alarm>
    /** `snoozed_alarms`, in insertion order. */
    var snoozed: seq<Entry>
    /** The `HH:MM` of the last minute the tick acted on. */
    var wallclockStr: string
    /** The panel item's 'on' style. */
    var panelOn: bool
    const fullscreen: Fullscreen

    ghost predicate Valid()
      reads this`snoozed
    {
      DistinctKeys(snoozed)
    }

    /** Enabling the section with the cached alarms. */
    constructor(cached: seq<Alarm>, today: int)
      ensures Valid() && fresh(fullscreen)
      ensures alarms == cached && snoozed == [] && wallclockStr == ""
      ensures panelOn <==> AnyToday(cached, today)
      ensures fullscreen.queue == [] && !fullscreen.isOpen
    {
      alarms := cached;
      snoozed := [];
      wallclockStr := "";
      panelOn := false;
      fullscreen := new Fullscreen();
      new;
      UpdatePanel(today);
    }

    /** `_update_panel_item_UI`: 'on' iff some alarm is on and rings today. */
    method UpdatePanel(today: int)
      modifies this`panelOn
      ensures panelOn <==> AnyToday(alarms, today)
    {
      panelOn := false;
      var i := 0;
      while i < |alarms|
        invariant 0 <= i <= |alarms|
        invariant !panelOn && forall k :: 0 <= k < i ==> !alarms[k].OnToday(today)
      {
        if alarms[i].OnToday(today) {
          panelOn := true;
          break;
        }
        i := i + 1;
      }
    }

    /** `snooze_alarm`: record the `HH:MM` that lies the alarm's snooze duration after now. */
    method SnoozeAlarm(a: Alarm, clock: Minute)
      requires Valid()
      modifies this`snoozed
      ensures Valid()
      ensures snoozed == Put(old(snoozed), a, SnoozeTime(clock, a.snoozeDur))
      ensures Lookup(snoozed, a) == Some(SnoozeTime(clock, a.snoozeDur))
    {
      PutDistinct(snoozed, a, SnoozeTime(clock, a.snoozeDur));
      LookupPut(snoozed, a, SnoozeTime(clock, a.snoozeDur), a);
      snoozed := Put(snoozed, a, SnoozeTime(clock, a.snoozeDur));
    }

    /** `_send_notif`: in fullscreen style the alarm goes to the fullscreen queue. */
    method SendNotif(a: Alarm, fullscreenStyle: bool)
      modifies fullscreen
      ensures fullscreen.queue == old(fullscreen.queue) + (if fullscreenStyle then [a] else [])
      ensures if fullscreenStyle then fullscreen.isOpen && (fullscreen.banner <==> |fullscreen.queue| == 1)
              else unchanged(fullscreen)
    {
      if fullscreenStyle {
        fullscreen.FireAlarm(a);
      }
    }

    /** `_send_notif` for each of `sent`, in order. */
    method Notify(sent: seq<Alarm>, fullscreenStyle: bool)
      modifies fullscreen
      ensures fullscreen.After(old(fullscreen.queue), old(fullscreen.isOpen), old(fullscreen.banner), fullscreenStyle, sent)
    {
      var i := 0;
      while i < |sent|
        invariant 0 <= i <= |sent|
        invariant fullscreen.After(old(fullscreen.queue), old(fullscreen.isOpen), old(fullscreen.banner), fullscreenStyle, sent[..i])
      {
        SendNotif(sent[i], fullscreenStyle);
        assert sent[..i + 1] == sent[..i] + [sent[i]];
        i := i + 1;
      }
      assert sent[..i] == sent;
    }

    /** The tick's walk over the alarm list: the alarms due at `time` on `today`, in list order. */
    method DueNow(time: string, today: int) returns (due: seq<Alarm>)
      ensures due == Due(alarms, time, today)
      ensures forall a :: a in due <==> a in alarms && a.FiresAt(time, today)
    {
      due := [];
      var i := 0;
      while i < |alarms|
        invariant 0 <= i <= |alarms|
        invariant due == Due(alarms[..i], time, today)
      {
        assert alarms[..i + 1][..i] == alarms[..i];
        if alarms[i].FiresAt(time, today) {
          due := due + [alarms[i]];
        }
        i := i + 1;
      }
      assert alarms[..i] == alarms;
      DueMembers(alarms, time, today);
    }

    /**
     * The tick's walk over the snooze map: the snoozed alarms due at `time`,
     * in map order, and the map left after deleting each of their entries.
     */
    method ScanSnoozed(time: string) returns (due: seq<Alarm>, left: seq<Entry>)
      requires Valid()
      ensures due == SnoozeDue(snoozed, time) && left == SnoozeLeft(snoozed, time)
      ensures DistinctKeys(left)
      ensures forall a :: a in due ==> Lookup(left, a).None?
    {
      var es := snoozed;
      left := es;
      due := [];
      var i := 0;
      while i < |es|
        invariant 0 <= i <= |es|
        invariant due == SnoozeDue(es[..i], time)
        invariant left == SnoozeLeft(es[..i], time) + es[i..]
      {
        var e := es[i];
        ScanStep(es, i, time, left);
        if SnoozeFires(e, time) {
          due := due + [e.alarm];
          left := Delete(left, e.alarm);
        }
        i := i + 1;
      }
      assert es[..i] == es && es[i..] == [];
      assert left == SnoozeLeft(es, time);
      SnoozeLeftDistinct(es, time);
      forall a | a in due ensures Lookup(left, a).None? {
        SnoozeFiredGone(es, time, a);
      }
    }

    /** What the tick does in a new minute: fire the due alarms, then the due snoozed ones, then refresh the panel. */
    method Act(time: string, today: int, fullscreenStyle: bool) returns (fired: seq<Alarm>)
      requires Valid()
      modifies this`snoozed, this`panelOn, fullscreen
      ensures Valid()
      ensures fired == old(Due(alarms, time, today) + SnoozeDue(snoozed, time))
      ensures snoozed == old(SnoozeLeft(snoozed, time))
      ensures panelOn <==> AnyToday(alarms, today)
      ensures fullscreen.After(old(fullscreen.queue), old(fullscreen.isOpen), old(fullscreen.banner), fullscreenStyle, fired)
    {
      hide Due, SnoozeDue, SnoozeLeft, AnyToday, Lookup, Put, Delete, DistinctKeys, SnoozeFires;
      assert forall e :: e in snoozed ==> allocated(e.alarm);
      var fromAlarms := DueNow(time, today);
      var fromSnoozed, left := ScanSnoozed(time);
      Notify(fromAlarms, fullscreenStyle);
      Notify(fromSnoozed, fullscreenStyle);
      snoozed := left;
      fired := fromAlarms + fromSnoozed;
      assert fullscreen.queue == old(fullscreen.queue) + (if fullscreenStyle then fired else []);
      UpdatePanel(today);
    }

    /**
     * `_tic`: at most once per minute string, and only in the first seconds of
     * the minute, fire every alarm due now, then every snoozed alarm due now
     * (dropping its snooze entry), then refresh the panel flag.
     */
    method Tic(clock: Minute, seconds: real, today: int, fullscreenStyle: bool) returns (fired: seq<Alarm>)
      requires Valid()
      modifies this`wallclockStr, this`snoozed, this`panelOn, fullscreen
      ensures Valid()
      ensures if TimeStr(clock) == old(wallclockStr) || seconds > 1.0 then
          fired == [] && wallclockStr == old(wallclockStr) && snoozed == old(snoozed) && panelOn == old(panelOn)
        else
          wallclockStr == TimeStr(clock)
          && fired == old(Due(alarms, TimeStr(clock), today) + SnoozeDue(snoozed, TimeStr(clock)))
          && snoozed == old(SnoozeLeft(snoozed, TimeStr(clock)))
          && (panelOn <==> AnyToday(alarms, today))
      ensures fullscreen.queue == old(fullscreen.queue) + (if fullscreenStyle then fired else [])
      ensures if fullscreenStyle && fired != [] then fullscreen.isOpen && (fullscreen.banner <==> |fullscreen.queue| == 1)
              else fullscreen.isOpen == old(fullscreen.isOpen) && fullscreen.banner == old(fullscreen.banner)
    {
      var time := TimeStr(clock);
      fired := [];
      if time == wallclockStr || seconds > 1.0 {
        return;
      }
      fired := Act(time, today, fullscreenStyle);
      wallclockStr := time;
    }

    /** 'add-alarm': append a new, switched-on alarm. */
    method AddAlarm(timeStr: string, msg: string, days: seq<int>, snoozeDur: int, repeatSound: bool, today: int)
      returns (a: Alarm)
      modifies this`alarms, this`panelOn
      ensures fresh(a) && alarms == old(alarms) + [a]
      ensures a.timeStr == timeStr && a.msg == msg && a.days == days && a.toggle
      ensures a.snoozeDur == snoozeDur && a.repeatSound == repeatSound
      ensures panelOn <==> AnyToday(alarms, today)
    {
      a := new Alarm(timeStr, msg, days, snoozeDur, repeatSound);
      alarms := alarms + [a];
      UpdatePanel(today);
    }

    /** The editor's OK on an existing alarm, then 'edited-alarm': new settings, snooze cleared. */
    method EditAlarm(a: Alarm, timeStr: string, msg: string, days: seq<int>, snoozeDur: int, repeatSound: bool, today: int)
      requires Valid()
      modifies a, this`snoozed, this`panelOn
      ensures Valid()
      ensures a.timeStr == timeStr && a.msg == msg && a.days == days && a.toggle == old(a.toggle)
      ensures a.snoozeDur == snoozeDur && a.repeatSound == repeatSound
      ensures snoozed == Delete(old(snoozed), a) && Lookup(snoozed, a).None?
      ensures panelOn <==> AnyToday(alarms, today)
    {
      a.timeStr := timeStr;
      a.msg := msg;
      a.days := days;
      a.snoozeDur := snoozeDur;
      a.repeatSound := repeatSound;
      DeleteDistinct(snoozed, a);
      LookupDelete(snoozed, a, a);
      snoozed := Delete(snoozed, a);
      UpdatePanel(today);
    }

    /** `_on_toggle`, then 'alarm-toggled': flip the switch and clear the snooze. */
    method ToggleAlarm(a: Alarm, today: int)
      requires Valid()
      modifies a`toggle, this`snoozed, this`panelOn
      ensures Valid()
      ensures a.toggle == !old(a.toggle)
      ensures snoozed == Delete(old(snoozed), a) && Lookup(snoozed, a).None?
      ensures panelOn <==> AnyToday(alarms, today)
    {
      a.toggle := !a.toggle;
      DeleteDistinct(snoozed, a);
      LookupDelete(snoozed, a, a);
      snoozed := Delete(snoozed, a);
      UpdatePanel(today);
    }

    /** `_delete_alarm`: drop the alarm from the list and from the snooze map. */
    method DeleteAlarm(a: Alarm, today: int)
      requires Valid()
      modifies this`alarms, this`snoozed, this`panelOn
      ensures Valid()
      ensures alarms == Remove(old(alarms), a)
      ensures forall i :: 0 <= i < |old(alarms)| && old(alarms)[i] == a && Distinct(old(alarms)) ==>
        alarms == old(alarms)[..i] + old(alarms)[i + 1..]
      ensures snoozed == Delete(old(snoozed), a) && Lookup(snoozed, a).None?
      ensures panelOn <==> AnyToday(alarms, today)
    {
      forall i | 0 <= i < |alarms| && alarms[i] == a && Distinct(alarms)
        ensures Remove(alarms, a) == alarms[..i] + alarms[i + 1..]
      {
        RemoveAt(alarms, i);
      }
      alarms := Remove(alarms, a);
      DeleteDistinct(snoozed, a);
      LookupDelete(snoozed, a, a);
      snoozed := Delete(snoozed, a);
      UpdatePanel(today);
    }
  }
}
