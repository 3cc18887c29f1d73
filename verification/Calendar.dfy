/** The proleptic Gregorian calendar, as the schedule executor's datetimes use it.

    Days are numbered from 0 = 0001-01-01, which is a Monday, so that the weekday with
    Monday = 0 is simply the day number modulo 7.  A date is reached from that origin one
    day at a time; `DayNumber` is the closed form, and the two are proved to be inverses. */
module Calendar {

  datatype Date = Date(year: nat, month: nat, day: nat)

  predicate IsLeap(y: nat) {
    y % 4 == 0 && (y % 100 != 0 || y % 400 == 0)
  }

  function YearLength(y: nat): nat {
    if IsLeap(y) then 366 else 365
  }

  function DaysInMonth(y: nat, m: nat): nat {
    if m == 2 then (if IsLeap(y) then 29 else 28)
    else if m == 4 || m == 6 || m == 9 || m == 11 then 30
    else 31
  }

  predicate ValidDate(d: Date) {
    1 <= d.year && 1 <= d.month <= 12 && 1 <= d.day <= DaysInMonth(d.year, d.month)
  }

  /** The day after `d`. */
  function NextDay(d: Date): Date {
    if d.day < DaysInMonth(d.year, d.month) then Date(d.year, d.month, d.day + 1)
    else if d.month < 12 then Date(d.year, d.month + 1, 1)
    else Date(d.year + 1, 1, 1)
  }

  /** The date `n` days after 0001-01-01. */
  function DateOf(n: nat): Date {
    if n == 0 then Date(1, 1, 1) else NextDay(DateOf(n - 1))
  }

  function Weekday(n: nat): nat {
    n % 7
  }

  function DaysBeforeYear(y: nat): nat
    requires 1 <= y
  {
    365 * (y - 1) + ((y - 1) / 4 - (y - 1) / 100 + (y - 1) / 400)
  }

  function DaysBeforeMonth(y: nat, m: nat): nat
    requires 1 <= m <= 12
  {
    [0, 31, 59, 90, 120, 151, 181, 212, 243, 273, 304, 334][m - 1] + if m > 2 && IsLeap(y) then 1 else 0
  }

  /** The closed form of the day number. */
  function DayNumber(d: Date): nat
    requires ValidDate(d)
  {
    DaysBeforeYear(d.year) + DaysBeforeMonth(d.year, d.month) + (d.day - 1)
  }

  lemma QuotientStep(y: nat, k: nat)
    requires 1 <= y && 2 <= k
    ensures y / k == (y - 1) / k + if y % k == 0 then 1 else 0
  {
    var q, r := (y - 1) / k, (y - 1) % k;
    assert y == k * q + (r + 1);
    if r + 1 < k {
      QuotientUnique(y, k, q, r + 1);
    } else {
      assert y == k * (q + 1) + 0;
      QuotientUnique(y, k, q + 1, 0);
    }
  }

  lemma QuotientUnique(y: nat, k: nat, q: int, r: nat)
    requires r < k && y == k * q + r
    ensures y / k == q && y % k == r
  {
    var d := y / k - q;
    assert k * d == r - y % k;
    NonzeroMultiple(k, d);
  }

  lemma NonzeroMultiple(k: nat, d: int)
    ensures d >= 1 ==> k * d >= k
    ensures d <= -1 ==> k * d <= -(k as int)
  {
    if d >= 1 {
      assert k * (d - 1) >= 0;
    } else if d <= -1 {
      assert k * (-d - 1) >= 0;
    }
  }

  lemma YearStep(y: nat)
    requires 1 <= y
    ensures DaysBeforeYear(y + 1) == DaysBeforeYear(y) + YearLength(y)
  {
    QuotientStep(y, 4);
    QuotientStep(y, 100);
    QuotientStep(y, 400);
    Centuries(y);
  }

  lemma Centuries(y: nat)
    ensures y % 400 == 0 ==> y % 100 == 0
    ensures y % 100 == 0 ==> y % 4 == 0
  {
    var a, b := y / 400, y / 100;
    if y % 400 == 0 {
      assert y == 100 * (4 * a) + 0;
      QuotientUnique(y, 100, 4 * a, 0);
    }
    if y % 100 == 0 {
      assert y == 4 * (25 * b) + 0;
      QuotientUnique(y, 4, 25 * b, 0);
    }
  }

  lemma {:induction false} YearsOrdered(y: nat, z: nat)
    requires 1 <= y <= z
    ensures DaysBeforeYear(y) + 365 * (z - y) <= DaysBeforeYear(z)
    decreases z
  {
    if y < z {
      YearsOrdered(y, z - 1);
      YearStep(z - 1);
    }
  }

  lemma NextDayNumber(d: Date)
    requires ValidDate(d)
    ensures ValidDate(NextDay(d)) && DayNumber(NextDay(d)) == DayNumber(d) + 1
  {
    YearStep(d.year);
  }

  /** Every day number names a valid date, and the closed form gives the number back. */
  lemma {:induction false} DayNumberOfDate(n: nat)
    ensures ValidDate(DateOf(n)) && DayNumber(DateOf(n)) == n
  {
    if n != 0 {
      DayNumberOfDate(n - 1);
      NextDayNumber(DateOf(n - 1));
    }
  }

  /** Dates of a year have day numbers inside that year. */
  lemma DayNumberInYear(d: Date)
    requires ValidDate(d)
    ensures DaysBeforeYear(d.year) <= DayNumber(d) < DaysBeforeYear(d.year + 1)
  {
    YearStep(d.year);
  }

  lemma EarlierYear(a: Date, b: Date)
    requires ValidDate(a) && ValidDate(b) && a.year < b.year
    ensures DayNumber(a) < DayNumber(b)
  {
    DayNumberInYear(a);
    YearsOrdered(a.year + 1, b.year);
  }

  lemma DayNumberInjective(a: Date, b: Date)
    requires ValidDate(a) && ValidDate(b)
    ensures DayNumber(a) == DayNumber(b) ==> a == b
  {
    if a.year < b.year {
      EarlierYear(a, b);
    } else if b.year < a.year {
      EarlierYear(b, a);
    }
  }

  /** Every valid date is reached: stepping day by day to its closed-form number gives it. */
  lemma DateOfDayNumber(d: Date)
    requires ValidDate(d)
    ensures DateOf(DayNumber(d)) == d
  {
    DayNumberOfDate(DayNumber(d));
    DayNumberInjective(DateOf(DayNumber(d)), d);
  }

  /** Dates of the real calendar: 1 January 1970 was a Thursday and 29 February 2000 a Tuesday, and
      1900 had no such day. */
  lemma KnownDays()
    ensures DayNumber(Date(1970, 1, 1)) == 719162 && Weekday(719162) == 3
    ensures ValidDate(Date(2000, 2, 29)) && Weekday(DayNumber(Date(2000, 2, 29))) == 1
    ensures !ValidDate(Date(1900, 2, 29)) && !ValidDate(Date(2023, 2, 29)) && !ValidDate(Date(2024, 4, 31))
  {
  }
}
