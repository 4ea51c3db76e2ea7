/**
 * Calendar dates as java.time.LocalDate uses them: the ISO proleptic
 * calendar, `minusYears` (which clamps 29 February to 28 February in a
 * common year) and the whole-year count of `Period.between`.
 */
module Dates {

  datatype Date = Date(year: int, month: int, day: int)

  /** IsoChronology.isLeapYear; only zero-tests of remainders, so Dafny's `%` agrees with Java's. */
  predicate IsLeapYear(y: int) {
    y % 4 == 0 && (y % 100 != 0 || y % 400 == 0)
  }

  function LengthOfMonth(y: int, m: int): (n: int)
    requires 1 <= m <= 12
    ensures 28 <= n <= 31
    ensures n == 29 <==> m == 2 && IsLeapYear(y)
  {
    if m == 2 then (if IsLeapYear(y) then 29 else 28)
    else if m == 4 || m == 6 || m == 9 || m == 11 then 30
    else 31
  }

  predicate Valid(d: Date) {
    1 <= d.month <= 12 && 1 <= d.day <= LengthOfMonth(d.year, d.month)
  }

  /** Chronological order (LocalDate.compareTo <= 0). */
  predicate OnOrBefore(a: Date, b: Date) {
    a.year < b.year
    || (a.year == b.year && (a.month < b.month || (a.month == b.month && a.day <= b.day)))
  }

  /**
   * LocalDate.minusYears: the same month and day `n` years earlier, the day
   * clamped to the length of that month (only 29 February is affected).
   */
  function MinusYears(d: Date, n: int): (r: Date)
    requires Valid(d)
    ensures Valid(r) && r.year == d.year - n && r.month == d.month
    ensures r.day == d.day || (d.month == 2 && d.day == 29 && r.day == 28 && !IsLeapYear(r.year))
  {
    var y := d.year - n;
    Date(y, d.month, if d.day > LengthOfMonth(y, d.month) then LengthOfMonth(y, d.month) else d.day)
  }

  /** Java's `/` on longs: the quotient truncated toward zero. */
  function JavaDiv(a: int, b: int): int
    requires b > 0
  {
    if a >= 0 then a / b else -((-a) / b)
  }

  /** `Period.between(start, end).getYears()`, following LocalDate.until. */
  function YearsBetween(start: Date, end: Date): int {
    var totalMonths := (end.year * 12 + end.month - 1) - (start.year * 12 + start.month - 1);
    var days := end.day - start.day;
    var adjusted :=
      if totalMonths > 0 && days < 0 then totalMonths - 1
      else if totalMonths < 0 && days > 0 then totalMonths + 1
      else totalMonths;
    JavaDiv(adjusted, 12)
  }

  lemma DivBy12(x: int, q: int)
    requires 12 * q <= x < 12 * q + 12
    ensures x / 12 == q
  {
  }

  /**
   * For a start on or before the end, the years of the period are the
   * difference of the years, less one when the end's month and day come
   * before the start's.
   */
  lemma YearsBetweenIsWholeYears(b: Date, t: Date)
    requires Valid(b) && Valid(t) && OnOrBefore(b, t)
    ensures YearsBetween(b, t) ==
      t.year - b.year - (if t.month < b.month || (t.month == b.month && t.day < b.day) then 1 else 0)
  {
    var totalMonths := (t.year * 12 + t.month - 1) - (b.year * 12 + b.month - 1);
    var days := t.day - b.day;
    var adjusted := if totalMonths > 0 && days < 0 then totalMonths - 1 else totalMonths;
    assert totalMonths == 12 * (t.year - b.year) + (t.month - b.month);
    assert totalMonths >= 0;
    assert adjusted >= 0;
    var q := t.year - b.year - (if t.month < b.month || (t.month == b.month && t.day < b.day) then 1 else 0);
    DivBy12(adjusted, q);
  }

  /**
   * Someone born on `b` is at least `n` whole years old on `t` exactly when
   * `b` is on or before `t.minusYears(n)`.
   */
  lemma AgeAtLeast(b: Date, t: Date, n: int)
    requires Valid(b) && Valid(t) && OnOrBefore(b, t)
    ensures OnOrBefore(b, MinusYears(t, n)) <==> YearsBetween(b, t) >= n
  {
    YearsBetweenIsWholeYears(b, t);
    var m := MinusYears(t, n);
    if b.year == t.year - n && m.day != t.day {
      // t is 29 February and b lies in a common year, so b is not a 29 February.
      assert b.month == 2 ==> b.day <= 28;
    }
  }

  /** Going back more years gives a strictly earlier date. */
  lemma MinusYearsStrictlyEarlier(t: Date, n: int, m: int)
    requires Valid(t) && n < m
    ensures OnOrBefore(MinusYears(t, m), MinusYears(t, n)) && MinusYears(t, m) != MinusYears(t, n)
  {
  }

  /**
   * Someone born on `b` is born on or after `t.minusYears(n)` exactly when
   * they are younger than `n` whole years, or `t` is precisely their `n`-th
   * birthday.
   */
  lemma AgeAtMost(b: Date, t: Date, n: int)
    requires Valid(b) && Valid(t) && OnOrBefore(b, t)
    ensures OnOrBefore(MinusYears(t, n), b) <==> YearsBetween(b, t) < n || b == MinusYears(t, n)
  {
    AgeAtLeast(b, t, n);
    AgeAtLeast(b, t, n + 1);
    MinusYearsStrictlyEarlier(t, n, n + 1);
  }

  /** The whole years between `b` and `t` are the unique `a` with t.minusYears(a+1) < b <= t.minusYears(a). */
  lemma YearsBetweenBracket(b: Date, t: Date)
    requires Valid(b) && Valid(t) && OnOrBefore(b, t)
    ensures YearsBetween(b, t) >= 0
    ensures OnOrBefore(b, MinusYears(t, YearsBetween(b, t)))
    ensures !OnOrBefore(b, MinusYears(t, YearsBetween(b, t) + 1))
  {
    var a := YearsBetween(b, t);
    AgeAtLeast(b, t, a);
    AgeAtLeast(b, t, a + 1);
    AgeAtLeast(b, t, 0);
  }
}
