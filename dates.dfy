/**
 * Calendar dates as the todo section writes them, `yyyy-mm-dd`.  The source
 * keeps dates as strings and compares them with `<`; with a four-digit year and
 * two-digit month and day that order is the lexicographic order on
 * (year, month, day), which is what `Before` states.  The sentinels
 * '0000-00-00', '8999-99-99' and '9999-99-99' are dates that fail `Valid`.
 */
module Dates {
  import opened Text

  datatype Date = Date(year: int, month: int, day: int)

  /** '0000-00-00': no creation or completion date. */
  const NoDate: Date := Date(0, 0, 0)
  /** '8999-99-99': next recurrence unknown. */
  const UnknownNext: Date := Date(8999, 99, 99)
  /** '9999-99-99': no due date. */
  const NoDue: Date := Date(9999, 99, 99)

  /** `a < b` on the `yyyy-mm-dd` strings. */
  predicate Before(a: Date, b: Date)
  {
    a.year < b.year
    || (a.year == b.year && (a.month < b.month || (a.month == b.month && a.day < b.day)))
  }

  lemma BeforeTransitive(a: Date, b: Date, c: Date)
    requires Before(a, b) && Before(b, c)
    ensures Before(a, c)
  {
  }

  /** Fields that fit the two-digit month and day of the string form. */
  predicate InRange(d: Date)
  {
    0 <= d.month <= 99 && 0 <= d.day <= 99
  }

  /** The date read as the number yyyymmdd. */
  function Key(d: Date): int
  {
    10000 * d.year + 100 * d.month + d.day
  }

  lemma BeforeKey(a: Date, b: Date)
    requires InRange(a) && InRange(b)
    ensures Before(a, b) <==> Key(a) < Key(b)
  {
    if a.year < b.year {
      assert 10000 * a.year + 10000 <= 10000 * b.year;
    } else if a.year > b.year {
      assert 10000 * b.year + 10000 <= 10000 * a.year;
    }
  }

  predicate LeapYear(y: int)
  {
    y % 4 == 0 && (y % 100 != 0 || y % 400 == 0)
  }

  function DaysIn(y: int, m: int): (n: int)
    requires 1 <= m <= 12
    ensures 28 <= n <= 31
  {
    if m == 2 then (if LeapYear(y) then 29 else 28)
    else if m == 4 || m == 6 || m == 9 || m == 11 then 30
    else 31
  }

  /** `Date.parse` accepts the date: a day that exists in the Gregorian calendar. */
  predicate Valid(d: Date)
  {
    d.year >= 0 && 1 <= d.month <= 12 && 1 <= d.day <= DaysIn(d.year, d.month)
  }

  function YearDays(y: int): int
  {
    if LeapYear(y) then 366 else 365
  }

  /** Days of year `y` before the first of month `m` (13 stands for the next January). */
  function DaysBeforeMonth(y: int, m: int): int
    requires 1 <= m <= 13
  {
    (if m > 2 && LeapYear(y) then 1 else 0) +
    (if m == 1 then 0 else if m == 2 then 31 else if m == 3 then 59
     else if m == 4 then 90 else if m == 5 then 120 else if m == 6 then 151
     else if m == 7 then 181 else if m == 8 then 212 else if m == 9 then 243
     else if m == 10 then 273 else if m == 11 then 304 else if m == 12 then 334
     else 365)
  }

  function DaysBeforeYear(y: nat): nat
  {
    if y == 0 then 0 else DaysBeforeYear(y - 1) + YearDays(y - 1)
  }

  /** Days elapsed since 0000-01-01: the reference against which date arithmetic is stated. */
  function DayNumber(d: Date): nat
    requires Valid(d)
  {
    DaysBeforeYear(d.year) + DaysBeforeMonth(d.year, d.month) + d.day - 1
  }

  lemma {:induction false} DaysBeforeYearMonotone(a: nat, b: nat)
    requires a <= b
    ensures DaysBeforeYear(a) + (b - a) * 365 <= DaysBeforeYear(b)
    decreases b - a
  {
    if a < b {
      DaysBeforeYearMonotone(a, b - 1);
    }
  }

  lemma DayNumberInYear(d: Date)
    requires Valid(d)
    ensures DaysBeforeYear(d.year) <= DayNumber(d) < DaysBeforeYear(d.year + 1)
  {
  }

  /** Date order is day-count order. */
  lemma BeforeDayNumber(a: Date, b: Date)
    requires Valid(a) && Valid(b)
    ensures Before(a, b) <==> DayNumber(a) < DayNumber(b)
  {
    DayNumberInYear(a);
    DayNumberInYear(b);
    if a.year < b.year {
      DaysBeforeYearMonotone(a.year + 1, b.year);
    } else if b.year < a.year {
      DaysBeforeYearMonotone(b.year + 1, a.year);
    }
  }

  /** The day after `d`. */
  function NextDay(d: Date): (r: Date)
    requires Valid(d)
    ensures Valid(r) && DayNumber(r) == DayNumber(d) + 1
  {
    if d.day < DaysIn(d.year, d.month) then d.(day := d.day + 1)
    else if d.month < 12 then Date(d.year, d.month + 1, 1)
    else Date(d.year + 1, 1, 1)
  }

  /** `date.setDate(date.getDate() + n)`: the date `n` days later. */
  function AddDays(d: Date, n: nat): (r: Date)
    requires Valid(d)
    ensures Valid(r) && DayNumber(r) == DayNumber(d) + n
    decreases n
  {
    if n == 0 then d else AddDays(NextDay(d), n - 1)
  }

  /**
   * The loop `while (iter < today) iter += inc days`: the first date of the
   * series `start`, `start + inc`, `start + 2 inc`, ... that is not before `today`.
   */
  function AdvanceDays(start: Date, inc: nat, today: Date): (r: Date)
    requires Valid(start) && Valid(today) && inc >= 1
    ensures Valid(r) && !Before(r, today)
    ensures DayNumber(r) >= DayNumber(start)
    ensures r != start ==> DayNumber(r) - inc < DayNumber(today)
    decreases DayNumber(today) - DayNumber(start)
  {
    BeforeDayNumber(start, today);
    if Before(start, today) then
      var next := AddDays(start, inc);
      AdvanceDays(next, inc, today)
    else
      start
  }

  /** `AdvanceDays` stays on the series: `k` whole steps past `start`. */
  lemma {:induction false} AdvanceDaysSteps(start: Date, inc: nat, today: Date) returns (k: nat)
    requires Valid(start) && Valid(today) && inc >= 1
    ensures DayNumber(AdvanceDays(start, inc, today)) == DayNumber(start) + k * inc
    decreases DayNumber(today) - DayNumber(start)
  {
    BeforeDayNumber(start, today);
    if Before(start, today) {
      var next := AddDays(start, inc);
      var j := AdvanceDaysSteps(next, inc, today);
      k := j + 1;
      assert k * inc == j * inc + inc;
    } else {
      k := 0;
    }
  }

  /**
   * One step of the monthly recurrence: add `inc` months, carrying into the
   * year, with the month kept in 1..12.
   */
  function MonthStep(year: int, month: int, inc: nat): (r: (int, int))
    requires 1 <= month <= 12
    ensures 1 <= r.1 <= 12
    ensures 12 * r.0 + r.1 == 12 * year + month + inc
  {
    var m := month + inc;
    var y := year + m / 12;
    var m2 := m % 12;
    if m2 == 0 then (y - 1, 12) else (y, m2)
  }

  /** The month `inc` months before (year, month): the inverse of `MonthStep`. */
  function MonthBack(year: int, month: int, inc: nat): (r: (int, int))
    requires 1 <= month <= 12
    ensures 1 <= r.1 <= 12
    ensures 12 * r.0 + r.1 == 12 * year + month - inc
  {
    var i := 12 * year + month - 1 - inc;
    (i / 12, i % 12 + 1)
  }

  lemma MonthStepAdvances(year: int, month: int, inc: nat, day: int)
    requires 1 <= month <= 12 && inc >= 1 && 0 <= day <= 99
    ensures Key(Date(MonthStep(year, month, inc).0, MonthStep(year, month, inc).1, day))
          > Key(Date(year, month, day))
  {
    var (y, m) := MonthStep(year, month, inc);
    if y > year {
      assert 10000 * y >= 10000 * year + 10000;
    }
  }

  /**
   * The loop `while (!Date.parse(iter)) --day`: the day of month `d` counted
   * down to the last day that exists in that month.
   */
  function LastValidDay(y: int, m: int, d: int): (r: int)
    requires y >= 0 && 1 <= m <= 12 && d >= 1
    ensures Valid(Date(y, m, r))
    ensures r == if d <= DaysIn(y, m) then d else DaysIn(y, m)
    decreases d
  {
    if Valid(Date(y, m, d)) then d else LastValidDay(y, m, d - 1)
  }

  /** The `yyyy-mm-dd` shape of `REG.ISO_DATE`: digits and dashes, nothing checked about values. */
  predicate IsoShape(w: string)
  {
    |w| == 10 && w[4] == '-' && w[7] == '-'
    && AllDigits(w[..4]) && AllDigits(w[5..7]) && AllDigits(w[8..])
  }

  /** The date a `yyyy-mm-dd` word names. */
  function DateOf(w: string): (d: Date)
    requires IsoShape(w)
    ensures 0 <= d.year <= 9999 && InRange(d)
  {
    NatOfDigits(w[..4]);
    NatOfDigits(w[5..7]);
    NatOfDigits(w[8..]);
    Date(NatOf(w[..4]), NatOf(w[5..7]), NatOf(w[8..]))
  }

  /** `Date.parse(w)` yields a date for a word of the ISO shape. */
  predicate DateParses(w: string)
  {
    IsoShape(w) && Valid(DateOf(w))
  }

  /**
   * `Date.parse(w)` is truthy on its own, with no shape test before it: a
   * calendar date `yyyy-mm-dd`, or the shorter date-only forms of ECMAScript's
   * date format, a year `yyyy` and a month `yyyy-mm`.
   */
  predicate DateParseTruthy(w: string)
  {
    DateParses(w)
    || (|w| == 4 && AllDigits(w))
    || (|w| == 7 && w[4] == '-' && AllDigits(w[..4]) && AllDigits(w[5..]) && 1 <= NatOf(w[5..]) <= 12)
  }

  /** A date as `G.date_yyyymmdd()` writes it. */
  function Fmt(d: Date): (w: string)
    requires 0 <= d.year <= 9999 && InRange(d)
    ensures IsoShape(w) && DateOf(w) == d
  {
    var w := Pad4(d.year) + "-" + Pad2(d.month) + "-" + Pad2(d.day);
    assert w[..4] == Pad4(d.year) && w[5..7] == Pad2(d.month) && w[8..] == Pad2(d.day);
    w
  }

  lemma {:induction false} NatOfDigits(s: string)
    requires AllDigits(s) && 1 <= |s| <= 4
    ensures NatOf(s) < if |s| == 1 then 10 else if |s| == 2 then 100 else if |s| == 3 then 1000 else 10000
  {
    if |s| > 1 {
      NatOfDigits(s[..|s| - 1]);
    } else {
      assert s[..0] == [];
    }
  }

  lemma Pad2OfDigits(s: string)
    requires AllDigits(s) && |s| == 2
    ensures NatOf(s) < 100 && Pad2(NatOf(s)) == s
  {
    assert s[..1][..0] == [];
    assert NatOf(s[..1]) == (s[0] - '0') as nat;
  }

  lemma Pad4OfDigits(s: string)
    requires AllDigits(s) && |s| == 4
    ensures NatOf(s) < 10000 && Pad4(NatOf(s)) == s
  {
    var hi := s[..2];
    var lo := s[2..];
    NatOfFour(s);
    Pad2OfDigits(hi);
    Pad2OfDigits(lo);
    DivMod100(NatOf(hi), NatOf(lo));
    assert Pad4(NatOf(s)) == Pad2(NatOf(hi)) + Pad2(NatOf(lo));
    assert s == hi + lo;
  }

  lemma DivMod100(a: nat, b: nat)
    requires b < 100
    ensures (100 * a + b) / 100 == a && (100 * a + b) % 100 == b
  {
  }

  /** Four digits read as two pairs. */
  lemma NatOfFour(s: string)
    requires AllDigits(s) && |s| == 4
    ensures NatOf(s) == 100 * NatOf(s[..2]) + NatOf(s[2..])
  {
    var lo := s[2..];
    assert s[..3][..2] == s[..2];
    assert NatOf(s[..3]) == 10 * NatOf(s[..2]) + (s[2] - '0') as nat;
    assert lo[..1] == [s[2]] && lo[..1][..0] == [];
    assert NatOf(lo[..1]) == (s[2] - '0') as nat;
    assert NatOf(lo) == 10 * NatOf(lo[..1]) + (s[3] - '0') as nat;
  }

  /** Reading and writing a date are inverse: every `yyyy-mm-dd` word is the format of its date. */
  lemma FmtOfDate(w: string)
    requires IsoShape(w)
    ensures Fmt(DateOf(w)) == w
  {
    Pad4OfDigits(w[..4]);
    Pad2OfDigits(w[5..7]);
    Pad2OfDigits(w[8..]);
    assert w == w[..4] + "-" + w[5..7] + "-" + w[8..];
  }

  /** A date of the calendar that the string form can hold, as `today` always is. */
  predicate ValidToday(d: Date)
  {
    Valid(d) && d.year <= 9999
  }

}
