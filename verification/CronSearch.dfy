/** The minute-by-minute search for the next occurrence of a cron pattern
    (panel/main.py:1044-1060).

    A minute is counted from 0001-01-01T00:00 UTC.  As in the program, Monday is weekday 0
    and the day-of-month and day-of-week fields must both match. */
module CronSearch {
  import opened Prelude
  import opened Calendar

  const HOUR := 60
  const DAY := 1440
  const WEEK := 10080
  const WINDOW := 525600  // the number of candidates tried, 365 days of minutes

  datatype Cron = Cron(minute: set<int>, hour: set<int>, dom: set<int>, month: set<int>, dow: set<int>)

  /** `_cron_matches`. */
  predicate Matches(t: nat, c: Cron) {
    var d := DateOf(t / DAY);
    && t % HOUR in c.minute
    && (t / HOUR) % 24 in c.hour
    && d.day in c.dom
    && d.month in c.month
    && Weekday(t / DAY) in c.dow
  }

  /** A set of minutes. */
  type Pattern = nat -> bool

  /** The minutes a cron pattern stands for. */
  function Matching(c: Cron): Pattern {
    (t: nat) => Matches(t, c)
  }

  /** The least minute of the pattern in `[cur, end)`. */
  function FirstMatch(cur: nat, end: nat, p: Pattern): (r: Option<nat>)
    requires cur <= end
    ensures r.Some? ==> cur <= r.value < end && p(r.value)
    ensures r.Some? ==> forall t :: cur <= t < r.value ==> !p(t)
    ensures r.None? ==> forall t :: cur <= t < end ==> !p(t)
    decreases end - cur
  {
    if cur == end then None
    else if p(cur) then Some(cur)
    else FirstMatch(cur + 1, end, p)
  }

  /** What the search returns from a time in minute `m`. */
  function NextMinute(m: nat, p: Pattern): (r: Option<nat>)
    ensures r.Some? ==> m < r.value <= m + WINDOW && p(r.value) && forall t :: m < t < r.value ==> !p(t)
    ensures r.None? ==> forall t :: m < t <= m + WINDOW ==> !p(t)
  {
    FirstMatch(m + 1, m + 1 + WINDOW, p)
  }

  /** `_next_cron`: at most WINDOW candidates, starting with the minute after `m`. */
  method NextCron(m: nat, c: Cron) returns (r: Option<nat>)
    ensures r.Some? <==> exists t :: m < t <= m + WINDOW && Matches(t, c)
    ensures r.Some? ==> m < r.value <= m + WINDOW && Matches(r.value, c)
    ensures r.Some? ==> forall t :: m < t < r.value ==> !Matches(t, c)
    ensures r == NextMinute(m, Matching(c))
  {
    var cur := m + 1;
    for i := 0 to WINDOW
      invariant cur == m + 1 + i
      invariant forall t :: m < t < cur ==> !Matches(t, c)
    {
      if Matches(cur, c) {
        NextMinuteIs(m, Matching(c), cur);
        return Some(cur);
      }
      cur := cur + 1;
    }
    NextMinuteNone(m, Matching(c));
    return None;
  }

  /** A minute of the pattern with none before it in the window is what the search finds. */
  lemma NextMinuteIs(m: nat, p: Pattern, t: nat)
    requires m < t <= m + WINDOW && p(t)
    requires forall u :: m < u < t ==> !p(u)
    ensures NextMinute(m, p) == Some(t)
  {
    var r := NextMinute(m, p);
    assert r.Some?;
    if r.value < t {
      assert false;
    }
  }

  lemma NextMinuteNone(m: nat, p: Pattern)
    requires forall t :: m < t <= m + WINDOW ==> !p(t)
    ensures NextMinute(m, p) == None
  {
  }

  // ---------------------------------------------------------------- dates and times

  lemma DaySlot(n: nat, h: nat, mi: nat)
    requires h < 24 && mi < 60
    ensures var t := DAY * n + HOUR * h + mi; t % HOUR == mi && (t / HOUR) % 24 == h && t / DAY == n
  {
    var t := DAY * n + HOUR * h + mi;
    assert t == HOUR * (24 * n + h) + mi;
    assert t / HOUR == 24 * n + h;
  }

  lemma ClockDigits(t: nat)
    ensures t == DAY * (t / DAY) + HOUR * ((t / HOUR) % 24) + t % HOUR
  {
    var n := t / HOUR;
    assert t == HOUR * n + t % HOUR && n == 24 * (n / 24) + n % 24;
    assert t == DAY * (n / 24) + (HOUR * (n % 24) + t % HOUR);
    assert t / DAY == n / 24;
  }

  /** What a pattern means on the clock: a minute of a date matches exactly when the minute, the hour,
      the day, the month and the weekday, counted from Monday, are each in their field. */
  lemma MatchesClock(c: Cron, d: Date, h: nat, mi: nat)
    requires ValidDate(d) && h < 24 && mi < 60
    ensures Matches(DAY * DayNumber(d) + HOUR * h + mi, c)
       <==> mi in c.minute && h in c.hour && d.day in c.dom && d.month in c.month && DayNumber(d) % 7 in c.dow
  {
    MatchesAt(c, DayNumber(d), h, mi);
    DateOfDayNumber(d);
  }

  lemma MatchesAt(c: Cron, n: nat, h: nat, mi: nat)
    requires h < 24 && mi < 60
    ensures Matches(DAY * n + HOUR * h + mi, c)
       <==> mi in c.minute && h in c.hour && DateOf(n).day in c.dom && DateOf(n).month in c.month && n % 7 in c.dow
  {
    DaySlot(n, h, mi);
  }

  /** Every minute is one of some date. */
  lemma ClockOf(t: nat) returns (d: Date, h: nat, mi: nat)
    ensures ValidDate(d) && h < 24 && mi < 60 && t == DAY * DayNumber(d) + HOUR * h + mi
  {
    DayNumberOfDate(t / DAY);
    ClockDigits(t);
    d, h, mi := DateOf(t / DAY), (t / HOUR) % 24, t % HOUR;
  }

  // ---------------------------------------------------------------- reach of the window

  ghost predicate AllOf(s: set<int>, lo: int, hi: int) {
    forall x :: lo <= x < hi ==> x in s
  }

  /** The minute of the week at which weekday `w`, hour `h` and minute `mi` meet. */
  lemma WeekSlot(k: nat, w: nat, h: nat, mi: nat)
    requires w < 7 && h < 24 && mi < 60
    ensures var t := WEEK * k + DAY * w + HOUR * h + mi;
            && t % HOUR == mi
            && (t / HOUR) % 24 == h
            && Weekday(t / DAY) == w
  {
    var t := WEEK * k + DAY * w + HOUR * h + mi;
    assert t == HOUR * (168 * k + 24 * w + h) + mi;
    assert t / HOUR == 24 * (7 * k + w) + h;
    assert t / DAY == 7 * k + w;
  }

  /** Some minute in the week after `m` falls on a given slot of the week. */
  lemma SlotInWeek(m: nat, slot: nat) returns (k: nat)
    requires slot < WEEK
    ensures m < WEEK * k + slot <= m + WEEK
  {
    k := (m + WEEK - slot) / WEEK;
    assert WEEK * k + (m + WEEK - slot) % WEEK == m + WEEK - slot;
  }

  /** With every day of the month and every month allowed, an occurrence is at most one week away. */
  lemma WeeklyReach(m: nat, c: Cron)
    requires AllOf(c.dom, 1, 32) && AllOf(c.month, 1, 13)
    requires exists mi :: 0 <= mi < 60 && mi in c.minute
    requires exists h :: 0 <= h < 24 && h in c.hour
    requires exists w :: 0 <= w < 7 && w in c.dow
    ensures NextMinute(m, Matching(c)).Some? && NextMinute(m, Matching(c)).value <= m + WEEK
  {
    var mi :| 0 <= mi < 60 && mi in c.minute;
    var h :| 0 <= h < 24 && h in c.hour;
    var w :| 0 <= w < 7 && w in c.dow;
    var slot := DAY * w + HOUR * h + mi;
    var k := SlotInWeek(m, slot);
    WeekSlot(k, w, h, mi);
    var t := WEEK * k + DAY * w + HOUR * h + mi;
    DayNumberOfDate(t / DAY);
    assert m < t <= m + WEEK && Matching(c)(t);
  }

  /** A pattern with every date, one weekday, one hour and one minute. */
  ghost predicate Weekly(c: Cron, w: nat, h: nat, mi: nat) {
    && w < 7 && h < 24 && mi < 60
    && c.minute == {mi as int} && c.hour == {h as int} && c.dow == {w as int}
    && AllOf(c.dom, 1, 32) && AllOf(c.month, 1, 13)
  }

  /** A weekly pattern matches one minute of each week, counted from Monday 00:00. */
  lemma WeeklyMatches(t: nat, c: Cron, w: nat, h: nat, mi: nat)
    requires Weekly(c, w, h, mi)
    ensures Matches(t, c) <==> t % WEEK == DAY * w + HOUR * h + mi
  {
    var n := t / DAY;
    DayNumberOfDate(n);
    ClockDigits(t);
    var slot := DAY * (n % 7) + HOUR * ((t / HOUR) % 24) + t % HOUR;
    assert n == 7 * (n / 7) + n % 7;
    assert t == WEEK * (n / 7) + slot && slot < WEEK;
    QuotientUnique(t, WEEK, n / 7, slot);
    SlotDigits(n % 7, (t / HOUR) % 24, t % HOUR, w, h, mi);
  }

  lemma SlotDigits(w: nat, h: nat, mi: nat, v: nat, g: nat, mj: nat)
    requires h < 24 && mi < 60 && g < 24 && mj < 60
    ensures DAY * w + HOUR * h + mi == DAY * v + HOUR * g + mj <==> w == v && h == g && mi == mj
  {
  }

  /** The exact weekly law: from any minute the search finds the one match within the next week; from
      an occurrence, exactly one week later. */
  lemma WeeklyNext(m: nat, c: Cron, w: nat, h: nat, mi: nat)
    requires Weekly(c, w, h, mi)
    ensures var next := NextMinute(m, Matching(c));
            && next.Some? && next.value <= m + WEEK && next.value % WEEK == DAY * w + HOUR * h + mi
            && (Matches(m, c) ==> next == Some(m + WEEK))
  {
    WeeklyReach(m, c);
    var t := NextMinute(m, Matching(c)).value;
    assert Matches(t, c);
    WeeklyMatches(t, c, w, h, mi);
    if Matches(m, c) {
      WeeklyMatches(m, c, w, h, mi);
      SameSlot(m, t);
    }
  }

  lemma SameSlot(m: nat, t: nat)
    requires m < t <= m + WEEK && m % WEEK == t % WEEK
    ensures t == m + WEEK
  {
    var a, b, r := m / WEEK, t / WEEK, m % WEEK;
    assert m == WEEK * a + r && t == WEEK * b + r;
    assert t - m == WEEK * (b - a);
  }

  /** The minute at which month `mo`, day `d`, hour `h`, minute `mi` occurs in year `y`. */
  function YearlyMinute(y: nat, mo: nat, d: nat, h: nat, mi: nat): nat
    requires 1 <= y && 1 <= mo <= 12 && 1 <= d <= 28
  {
    DAY * DayNumber(Date(y, mo, d)) + HOUR * h + mi
  }

  lemma YearlyMinuteMatches(y: nat, mo: nat, d: nat, h: nat, mi: nat, c: Cron)
    requires 1 <= y && 1 <= mo <= 12 && 1 <= d <= 28 && h < 24 && mi < 60
    requires mi in c.minute && h in c.hour && d in c.dom && mo in c.month && AllOf(c.dow, 0, 7)
    ensures Matches(YearlyMinute(y, mo, d, h, mi), c)
  {
    MatchesClock(c, Date(y, mo, d), h, mi);
  }

  /** A minute lies in the year of its date. */
  lemma MinuteInYear(m: nat)
    ensures var y := DateOf(m / DAY).year;
            1 <= y && DAY * DaysBeforeYear(y) <= m < DAY * DaysBeforeYear(y + 1)
  {
    DayNumberOfDate(m / DAY);
    DayNumberInYear(DateOf(m / DAY));
  }

  /** With every weekday allowed, a day that every month has and two months, there is always
      a next occurrence inside the window. */
  lemma TwoMonthsReach(m: nat, c: Cron, a: nat, b: nat, d: nat)
    requires AllOf(c.dow, 0, 7) && 1 <= d <= 28 && d in c.dom
    requires 1 <= a < b <= 12 && a in c.month && b in c.month
    requires exists mi :: 0 <= mi < 60 && mi in c.minute
    requires exists h :: 0 <= h < 24 && h in c.hour
    ensures NextMinute(m, Matching(c)).Some?
  {
    var mi :| 0 <= mi < 60 && mi in c.minute;
    var h :| 0 <= h < 24 && h in c.hour;
    MinuteInYear(m);
    var y := DateOf(m / DAY).year;
    TwoMonthsGaps(y, a, b, d, h, mi);
    var z, mo := if m < YearlyMinute(y, b, d, h, mi) then y else y + 1,
                 if YearlyMinute(y, a, d, h, mi) <= m < YearlyMinute(y, b, d, h, mi) then b else a;
    YearlyMinuteMatches(z, mo, d, h, mi, c);
    assert Matching(c)(YearlyMinute(z, mo, d, h, mi)) && m < YearlyMinute(z, mo, d, h, mi) <= m + WINDOW;
  }

  /** The two months' occurrences of a year, and the next year's first, are less than 365 days apart. */
  lemma TwoMonthsGaps(y: nat, a: nat, b: nat, d: nat, h: nat, mi: nat)
    requires 1 <= y && 1 <= a < b <= 12 && 1 <= d <= 28 && h < 24 && mi < 60
    ensures YearlyMinute(y, a, d, h, mi) < DAY * DaysBeforeYear(y) + WINDOW
    ensures 0 < YearlyMinute(y, b, d, h, mi) - YearlyMinute(y, a, d, h, mi) < WINDOW
    ensures YearlyMinute(y + 1, a, d, h, mi) - YearlyMinute(y, b, d, h, mi) < WINDOW
    ensures DAY * DaysBeforeYear(y + 1) <= YearlyMinute(y + 1, a, d, h, mi)
  {
    YearStep(y);
  }

  // ---------------------------------------------------------------- yearly patterns

  /** A pattern with exactly one date and time a year. */
  ghost predicate Yearly(c: Cron, mo: nat, d: nat, h: nat, mi: nat) {
    && 1 <= mo <= 12 && 1 <= d <= 28 && h < 24 && mi < 60
    && c.minute == {mi as int} && c.hour == {h as int} && c.dom == {d as int} && c.month == {mo as int}
    && AllOf(c.dow, 0, 7)
  }

  /** A leap day lies between the occurrences of years `y` and `y + 1`. */
  predicate LeapGap(y: nat, mo: nat) {
    if mo <= 2 then IsLeap(y) else IsLeap(y + 1)
  }

  lemma YearlyGap(y: nat, mo: nat, d: nat, h: nat, mi: nat)
    requires 1 <= y && 1 <= mo <= 12 && 1 <= d <= 28
    ensures YearlyMinute(y + 1, mo, d, h, mi)
         == YearlyMinute(y, mo, d, h, mi) + DAY * (if LeapGap(y, mo) then 366 else 365)
  {
    YearStep(y);
  }

  lemma YearlyOrder(y: nat, z: nat, mo: nat, d: nat, h: nat, mi: nat)
    requires 1 <= y < z && 1 <= mo <= 12 && 1 <= d <= 28
    ensures YearlyMinute(y + 1, mo, d, h, mi) <= YearlyMinute(z, mo, d, h, mi)
    decreases z
  {
    if y + 1 < z {
      YearlyOrder(y, z - 1, mo, d, h, mi);
      YearlyGap(z - 1, mo, d, h, mi);
    }
  }

  /** A yearly pattern matches no minute but its own, one a year. */
  lemma YearlyMatchesOnly(t: nat, c: Cron, mo: nat, d: nat, h: nat, mi: nat)
    requires Yearly(c, mo, d, h, mi) && Matches(t, c)
    ensures var y := DateOf(t / DAY).year; 1 <= y && t == YearlyMinute(y, mo, d, h, mi)
  {
    DayNumberOfDate(t / DAY);
    assert DateOf(t / DAY) == Date(DateOf(t / DAY).year, mo, d);
    ClockDigits(t);
  }

  lemma YearlyQuietBetween(t: nat, y: nat, c: Cron, mo: nat, d: nat, h: nat, mi: nat)
    requires 1 <= y && Yearly(c, mo, d, h, mi)
    requires YearlyMinute(y, mo, d, h, mi) < t < YearlyMinute(y + 1, mo, d, h, mi)
    ensures !Matches(t, c)
  {
    if Matches(t, c) {
      YearlyMatchesOnly(t, c, mo, d, h, mi);
      var z := DateOf(t / DAY).year;
      if z < y {
        YearlyOrder(z, y, mo, d, h, mi);
        YearlyGap(z, mo, d, h, mi);
      } else if y < z {
        YearlyOrder(y, z, mo, d, h, mi);
      }
      assert false;
    }
  }

  /** The exact reach of a yearly pattern: from a minute between two occurrences the search
      finds the later one, except when a leap day makes them 366 days apart and the start is
      within the first 24 hours of the gap.  Then it finds nothing. */
  lemma {:induction false} YearlyReach(m: nat, y: nat, c: Cron, mo: nat, d: nat, h: nat, mi: nat)
    requires 1 <= y && Yearly(c, mo, d, h, mi)
    requires YearlyMinute(y, mo, d, h, mi) <= m < YearlyMinute(y + 1, mo, d, h, mi)
    ensures NextMinute(m, Matching(c)).None?
       <==> YearlyMinute(y + 1, mo, d, h, mi) - YearlyMinute(y, mo, d, h, mi) == 366 * DAY
            && m < YearlyMinute(y, mo, d, h, mi) + DAY
    ensures NextMinute(m, Matching(c)).Some? ==> NextMinute(m, Matching(c)) == Some(YearlyMinute(y + 1, mo, d, h, mi))
    ensures YearlyMinute(y + 1, mo, d, h, mi) - YearlyMinute(y, mo, d, h, mi) == 366 * DAY <==> LeapGap(y, mo)
  {
    YearlyGap(y, mo, d, h, mi);
    var next := YearlyMinute(y + 1, mo, d, h, mi);
    forall t | m < t < next ensures !Matching(c)(t) {
      YearlyQuietBetween(t, y, c, mo, d, h, mi);
    }
    YearlyMinuteMatches(y + 1, mo, d, h, mi, c);
    if next <= m + WINDOW {
      NextMinuteIs(m, Matching(c), next);
    }
  }
}
