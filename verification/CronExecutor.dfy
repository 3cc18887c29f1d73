/** The schedule executor: rows, one tick over them, and whole runs of ticks
    (panel/main.py:1063-1133).

    An instant is counted in microseconds from 0001-01-01T00:00 UTC, the resolution of the
    program's datetimes. */
module CronExecutor {
  import opened Prelude
  import opened CronSearch
  import opened CronParse

  const MINUTE := 60_000_000
  const RECURRING_GRACE := 300_000_000  // five minutes
  const ONE_SHOT_GRACE := 120_000_000   // 120 seconds

  /** The first instant of a minute, and the minute an instant lies in. */
  function Instant(minute: nat): nat {
    minute * 60_000_000
  }

  function MinuteOf(now: nat): nat {
    now / 60_000_000
  }

  /** A snapshot of a schedule row. */
  datatype Row = Row(isActive: bool, recurring: bool, pattern: Option<string>, scheduledTime: Option<nat>) {
    predicate Repeats() {
      recurring && pattern.Some? && pattern.value != ""
    }
  }

  /** `_next_cron` on instants: the search starts from the minute of `now`. */
  function NextInstant(now: nat, p: Pattern): Option<nat> {
    match NextMinute(MinuteOf(now), p)
    case None => None
    case Some(m) => Some(Instant(m))
  }

  predicate Due(st: nat, now: nat, grace: nat) {
    st <= now <= st + grace
  }

  /** What one tick does to a live row: the new row, and whether its action is dispatched. */
  function TickRow(r: Row, live: bool, now: nat): (Row, bool) {
    if !r.isActive || !live then (r, false)
    else if r.Repeats() then
      match Outcomes(r.pattern.value)
      case Parsed(c) =>
        var next := RecurringStep(Matching(c), r.scheduledTime, now);
        (r.(scheduledTime := next.0), next.1)
      case _ => (r, false)
    else if r.scheduledTime.Some? && Due(r.scheduledTime.value, now, ONE_SHOT_GRACE) then
      (r.(isActive := false), true)
    else (r, false)
  }

  /** A row with its switch turned. */
  function Toggled(r: Row): Row {
    r.(isActive := !r.isActive)
  }

  /** Toggling turns the switch and nothing else, and twice is not at all. */
  lemma ToggledTwice(r: Row)
    ensures Toggled(r) != r && Toggled(Toggled(r)) == r
    ensures Toggled(r).(isActive := true) == r.(isActive := true)
  {
  }

  /** The recurring case: the armed time after the tick, and whether the tick fires. */
  function RecurringStep(p: Pattern, armed: Option<nat>, now: nat): (Option<nat>, bool) {
    if armed.None? then (NextInstant(now, p), false)
    else if Due(armed.value, now, RECURRING_GRACE) then
      (if NextInstant(now, p).Some? then NextInstant(now, p) else armed, true)
    else (armed, false)
  }

  /** The row's pattern makes the parser divide by zero, which ends the executor's loop. */
  predicate Crashes(r: Row, live: bool) {
    r.isActive && live && r.Repeats() && Outcomes(r.pattern.value) == DivisionByZero
  }

  /** A visit to a row that did not crash. */
  ghost predicate Visited(before: Row, live: bool, now: nat, after: Row, fired: bool) {
    !Crashes(before, live) && (after, fired) == TickRow(before, live, now)
  }

  /** The first `n` rows have gone through their tick, and none crashed. */
  ghost predicate AllVisited(n: nat, before: seq<Row>, live: seq<bool>, now: nat, after: seq<Row>, fired: seq<bool>) {
    && n <= |before| == |live| == |after| && n == |fired|
    && forall i :: 0 <= i < n ==> Visited(before[i], live[i], now, after[i], fired[i])
  }

  // ---------------------------------------------------------------- the program

  class ServerSchedule {
    var isActive: bool
    var recurring: bool
    var pattern: Option<string>
    var scheduledTime: Option<nat>

    function View(): Row
      reads this
    {
      Row(isActive, recurring, pattern, scheduledTime)
    }

    constructor (recurring: bool, pattern: Option<string>, scheduledTime: Option<nat>)
      ensures View() == Row(true, recurring, pattern, scheduledTime)
    {
      this.isActive, this.recurring, this.pattern, this.scheduledTime := true, recurring, pattern, scheduledTime;
    }

    /** `toggle_server_schedule`. */
    method Toggle()
      modifies this`isActive
      ensures View() == Toggled(old(View()))
    {
      isActive := !isActive;
    }

    /** The re-arming part of `_fire_schedule`; dispatching the action is outside the model. */
    method Fire(now: nat)
      modifies this`isActive, this`scheduledTime
      ensures old(View()).Repeats() && Outcomes(pattern.value).Parsed? ==>
                var next := NextInstant(now, Matching(Outcomes(pattern.value).cron));
                View() == old(View()).(scheduledTime := if next.Some? then next else old(scheduledTime))
      ensures old(View()).Repeats() && !Outcomes(pattern.value).Parsed? ==> View() == old(View())
      ensures !old(View()).Repeats() ==> View() == old(View()).(isActive := false)
    {
      if recurring && pattern.Some? && pattern.value != "" {
        var cron := ParseCron(pattern.value);
        if cron.Parsed? {
          var next := NextCron(MinuteOf(now), cron.cron);
          if next.Some? {
            scheduledTime := Some(Instant(next.value));
          }
        }
      } else {
        isActive := false;
      }
    }

    /** The body of the loop over schedules. */
    method Visit(live: bool, now: nat) returns (crashed: bool, fired: bool)
      modifies this`isActive, this`scheduledTime
      ensures crashed <==> Crashes(old(View()), live)
      ensures crashed ==> View() == old(View())
      ensures !crashed ==> Visited(old(View()), live, now, View(), fired)
    {
      crashed, fired := false, false;
      if !isActive || !live {
        return;
      }
      if recurring && pattern.Some? && pattern.value != "" {
        var cron := ParseCron(pattern.value);
        if cron.DivisionByZero? {
          crashed := true;
          return;
        }
        if cron.Rejected? {
          return;
        }
        if scheduledTime.None? {
          var next := NextCron(MinuteOf(now), cron.cron);
          scheduledTime := if next.Some? then Some(Instant(next.value)) else None;
          return;
        }
        var st := scheduledTime.value;
        if now >= st && now - st <= RECURRING_GRACE {
          Fire(now);
          fired := true;
        }
      } else if scheduledTime.Some? {
        var st := scheduledTime.value;
        if now >= st && now - st <= ONE_SHOT_GRACE {
          Fire(now);
          fired := true;
        }
      }
    }
  }

  /** One pass of the executor over the schedule rows.  A pattern with a zero step stops it:
      the rows before that one have been served, the others are not touched. */
  method RunDueSchedules(rows: seq<ServerSchedule>, live: seq<bool>, now: nat)
    returns (crashed: bool, fired: seq<bool>)
    requires |live| == |rows|
    requires forall i, j :: 0 <= i < j < |rows| ==> rows[i] != rows[j]
    modifies rows
    ensures |fired| <= |rows|
    ensures AllVisited(|fired|, old(Views(rows)), live, now, Views(rows), fired)
    ensures Views(rows)[|fired|..] == old(Views(rows))[|fired|..]
    ensures crashed ==> |fired| < |rows| && Crashes(old(Views(rows))[|fired|], live[|fired|])
    ensures !crashed ==> |fired| == |rows|
  {
    crashed, fired := false, [];
    ghost var before := Views(rows);
    for i := 0 to |rows|
      invariant |fired| == i && !crashed
      invariant AllVisited(i, before, live, now, Views(rows), fired)
      invariant Views(rows)[i..] == before[i..]
    {
      ghost var here := Views(rows);
      assert rows[i].View() == here[i] == before[i..][0];
      var hit;
      crashed, hit := rows[i].Visit(live[i], now);
      assert Views(rows) == here[i := rows[i].View()];
      if crashed {
        return;
      }
      AllVisitedStep(before, live, now, here, fired, Views(rows)[i], hit);
      fired := fired + [hit];
    }
  }

  lemma AllVisitedStep(before: seq<Row>, live: seq<bool>, now: nat, here: seq<Row>, fired: seq<bool>,
                       row: Row, hit: bool)
    requires |fired| < |before| == |live| == |here| && AllVisited(|fired|, before, live, now, here, fired)
    requires Visited(before[|fired|], live[|fired|], now, row, hit)
    ensures AllVisited(|fired| + 1, before, live, now, here[|fired| := row], fired + [hit])
  {
  }

  ghost function Views(rows: seq<ServerSchedule>): (r: seq<Row>)
    reads rows
    ensures |r| == |rows| && forall i :: 0 <= i < |rows| ==> r[i] == rows[i].View()
  {
    seq(|rows|, i requires 0 <= i < |rows| reads rows => rows[i].View())
  }

  // ---------------------------------------------------------------- runs

  datatype Fire = Fire(armed: nat, at: nat)

  /** The fires of a row over a run of ticks, with the time each was armed for. */
  function RowFires(r: Row, ticks: seq<nat>): seq<Fire>
    decreases |ticks|
  {
    if ticks == [] then []
    else
      var next := TickRow(r, true, ticks[0]);
      (if next.1 && r.scheduledTime.Some? then [Fire(r.scheduledTime.value, ticks[0])] else [])
      + RowFires(next.0, ticks[1..])
  }

  function RowAfter(r: Row, ticks: seq<nat>): Row
    decreases |ticks|
  {
    if ticks == [] then r else RowAfter(TickRow(r, true, ticks[0]).0, ticks[1..])
  }

  /** The same for a recurring row, given the minutes of its pattern. */
  function Fires(p: Pattern, armed: Option<nat>, ticks: seq<nat>): seq<Fire>
    decreases |ticks|
  {
    if ticks == [] then []
    else
      var next := RecurringStep(p, armed, ticks[0]);
      (if next.1 then [Fire(armed.value, ticks[0])] else []) + Fires(p, next.0, ticks[1..])
  }

  function ArmedAfter(p: Pattern, armed: Option<nat>, ticks: seq<nat>): Option<nat>
    decreases |ticks|
  {
    if ticks == [] then armed else ArmedAfter(p, RecurringStep(p, armed, ticks[0]).0, ticks[1..])
  }

  /** A run of an active recurring row is the run of its pattern and armed time. */
  lemma {:induction false} RowRun(r: Row, c: Cron, ticks: seq<nat>)
    requires r.isActive && r.Repeats() && Outcomes(r.pattern.value) == Parsed(c)
    ensures RowFires(r, ticks) == Fires(Matching(c), r.scheduledTime, ticks)
    ensures RowAfter(r, ticks) == r.(scheduledTime := ArmedAfter(Matching(c), r.scheduledTime, ticks))
    decreases |ticks|
  {
    if ticks != [] {
      RowRun(TickRow(r, true, ticks[0]).0, c, ticks[1..]);
    }
  }

  /** One tick of an armed row. */
  lemma FirstTick(p: Pattern, st: nat, ticks: seq<nat>)
    requires ticks != []
    ensures !Due(st, ticks[0], RECURRING_GRACE) ==> Fires(p, Some(st), ticks) == Fires(p, Some(st), ticks[1..])
    ensures Due(st, ticks[0], RECURRING_GRACE) ==>
              var rest := Fires(p, RecurringStep(p, Some(st), ticks[0]).0, ticks[1..]);
              var fires := Fires(p, Some(st), ticks);
              fires == [Fire(st, ticks[0])] + rest && fires[0] == Fire(st, ticks[0]) && fires[1..] == rest
  {
  }

  /** A tick on a row without a time arms it for the next occurrence, and fires nothing. */
  lemma UnarmedArms(p: Pattern, now: nat, m: nat)
    requires m > MinuteOf(now) && p(m) && m <= MinuteOf(now) + WINDOW && forall t :: MinuteOf(now) < t < m ==> !p(t)
    ensures RecurringStep(p, None, now) == (Some(Instant(m)), false)
  {
    NextMinuteIs(MinuteOf(now), p, m);
  }

  predicate Ordered(ticks: seq<nat>) {
    forall i, j :: 0 <= i < j < |ticks| ==> ticks[i] <= ticks[j]
  }

  /** Consecutive ticks are at most `gap` apart. */
  predicate Spaced(ticks: seq<nat>, gap: nat) {
    |ticks| >= 2 ==> ticks[0] <= ticks[1] <= ticks[0] + gap && Spaced(ticks[1..], gap)
  }

  /** The search succeeds from every tick of the run. */
  ghost predicate Rearms(p: Pattern, ticks: seq<nat>) {
    forall i :: 0 <= i < |ticks| ==> NextMinute(MinuteOf(ticks[i]), p).Some?
  }

  // ---------------------------------------------------------------- occurrences

  /** The matching minutes in `[lo, hi)`, ascending. */
  function Occurrences(lo: nat, hi: nat, p: Pattern): seq<nat>
    decreases hi - lo
  {
    if lo >= hi then [] else (if p(lo) then [lo] else []) + Occurrences(lo + 1, hi, p)
  }

  lemma {:induction false} OccurrencesSplit(lo: nat, mid: nat, hi: nat, p: Pattern)
    requires lo <= mid <= hi
    ensures Occurrences(lo, hi, p) == Occurrences(lo, mid, p) + Occurrences(mid, hi, p)
    decreases mid - lo
  {
    if lo < mid {
      OccurrencesSplit(lo + 1, mid, hi, p);
    }
  }

  lemma {:induction false} NoOccurrences(lo: nat, hi: nat, p: Pattern)
    requires forall t :: lo <= t < hi ==> !p(t)
    ensures Occurrences(lo, hi, p) == []
    decreases hi - lo
  {
    if lo < hi {
      NoOccurrences(lo + 1, hi, p);
    }
  }

  predicate Ascending(s: seq<nat>) {
    forall i, j :: 0 <= i < j < |s| ==> s[i] < s[j]
  }

  lemma AscendingCons(x: nat, rest: seq<nat>)
    requires Ascending(rest) && forall t :: t in rest ==> x < t
    ensures Ascending([x] + rest)
  {
    assert forall j :: 0 <= j < |rest| ==> rest[j] in rest;
  }

  /** `Occurrences` lists every matching minute of its interval, each once, in order. */
  lemma {:induction false} OccurrencesListed(lo: nat, hi: nat, p: Pattern)
    ensures forall t :: t in Occurrences(lo, hi, p) <==> lo <= t < hi && p(t)
    ensures Ascending(Occurrences(lo, hi, p))
    decreases hi - lo
  {
    if lo < hi {
      OccurrencesListed(lo + 1, hi, p);
      if p(lo) {
        AscendingCons(lo, Occurrences(lo + 1, hi, p));
      }
    }
  }

  // ---------------------------------------------------------------- fire law

  /** What a fire accounts for: the occurrence it was armed for and those it skips, up to and
      including the minute in which it happened. */
  function Accounted(f: Fire, p: Pattern): seq<nat> {
    [MinuteOf(f.armed)] + Occurrences(MinuteOf(f.armed) + 1, MinuteOf(f.at) + 1, p)
  }

  function AllAccounted(fires: seq<Fire>, p: Pattern): seq<nat> {
    if fires == [] then [] else Accounted(fires[0], p) + AllAccounted(fires[1..], p)
  }

  /** One fire re-arms the row for the first occurrence after the minute of the tick, and
      accounts for exactly the occurrences before that. */
  lemma FireStep(p: Pattern, k: nat, now: nat)
    requires p(k) && Due(Instant(k), now, RECURRING_GRACE) && NextMinute(MinuteOf(now), p).Some?
    ensures var n := NextMinute(MinuteOf(now), p).value;
            && RecurringStep(p, Some(Instant(k)), now) == (Some(Instant(n)), true)
            && k <= MinuteOf(now) < n && p(n)
            && Occurrences(k, n, p) == Accounted(Fire(Instant(k), now), p)
            && now < Instant(n)
  {
    var m := MinuteOf(now);
    var n := NextMinute(m, p).value;
    NoOccurrences(m + 1, n, p);
    OccurrencesSplit(k, m + 1, n, p);
    assert Occurrences(k, n, p) == Occurrences(k, m + 1, p);
    assert MinuteOf(Instant(k)) == k;
  }

  /** For every run of ticks, however spaced: the occurrences from the first armed one up to
      the one finally armed are, in order and each once, those that fired together with those
      skipped by a late fire. */
  lemma {:induction false} FireLaw(p: Pattern, k: nat, ticks: seq<nat>)
    requires p(k) && Rearms(p, ticks)
    ensures ArmedAfter(p, Some(Instant(k)), ticks).Some?
    ensures var end := ArmedAfter(p, Some(Instant(k)), ticks).value;
            && end == Instant(MinuteOf(end)) && k <= MinuteOf(end) && p(MinuteOf(end))
            && Occurrences(k, MinuteOf(end), p) == AllAccounted(Fires(p, Some(Instant(k)), ticks), p)
    decreases |ticks|
  {
    if ticks == [] {
      assert MinuteOf(Instant(k)) == k;
    } else {
      FirstTick(p, Instant(k), ticks);
      if Due(Instant(k), ticks[0], RECURRING_GRACE) {
        FireStep(p, k, ticks[0]);
        var n := NextMinute(MinuteOf(ticks[0]), p).value;
        FireLaw(p, n, ticks[1..]);
        OccurrencesSplit(k, n, MinuteOf(ArmedAfter(p, Some(Instant(k)), ticks).value), p);
      } else {
        FireLaw(p, k, ticks[1..]);
      }
    }
  }

  /** No occurrence fires twice: each fire happens before the time the next one is armed for. */
  lemma {:induction false} FiresAdvance(p: Pattern, k: nat, ticks: seq<nat>)
    requires p(k) && Rearms(p, ticks)
    ensures var fires := Fires(p, Some(Instant(k)), ticks);
            && (forall i :: 0 <= i < |fires| ==>
                  Instant(k) <= fires[i].armed <= fires[i].at <= fires[i].armed + RECURRING_GRACE)
            && (forall i, j :: 0 <= i < j < |fires| ==> fires[i].at < fires[j].armed)
    decreases |ticks|
  {
    if ticks != [] {
      FirstTick(p, Instant(k), ticks);
      if Due(Instant(k), ticks[0], RECURRING_GRACE) {
        FireStep(p, k, ticks[0]);
        FiresAdvance(p, NextMinute(MinuteOf(ticks[0]), p).value, ticks[1..]);
      } else {
        FiresAdvance(p, k, ticks[1..]);
      }
    }
  }

  /** An armed time is served exactly when some tick falls within five minutes after it. */
  lemma {:induction false} UnservedIff(p: Pattern, st: nat, ticks: seq<nat>)
    ensures Fires(p, Some(st), ticks) == []
       <==> forall i :: 0 <= i < |ticks| ==> !Due(st, ticks[i], RECURRING_GRACE)
    ensures Fires(p, Some(st), ticks) == [] ==> ArmedAfter(p, Some(st), ticks) == Some(st)
  {
    if ticks != [] {
      UnservedIff(p, st, ticks[1..]);
      if !Due(st, ticks[0], RECURRING_GRACE) {
        assert forall i :: 0 <= i < |ticks| - 1 ==> ticks[1..][i] == ticks[i + 1];
        assert Fires(p, Some(st), ticks) == Fires(p, Some(st), ticks[1..]);
        forall i | Fires(p, Some(st), ticks) == [] && 0 <= i < |ticks|
          ensures !Due(st, ticks[i], RECURRING_GRACE)
        {
          if i > 0 { assert ticks[i] == ticks[1..][i - 1]; }
        }
      }
    }
  }

  /** Once a tick comes more than five minutes after an unserved armed time, the schedule never
      fires again and is never armed again. */
  lemma {:induction false} Expired(p: Pattern, st: nat, ticks: seq<nat>)
    requires ticks != [] && Ordered(ticks) && ticks[0] > st + RECURRING_GRACE
    ensures Fires(p, Some(st), ticks) == [] && ArmedAfter(p, Some(st), ticks) == Some(st)
  {
    UnservedIff(p, st, ticks);
  }

  // ---------------------------------------------------------------- exactly once

  function ArmedMinutes(fires: seq<Fire>): seq<nat> {
    if fires == [] then [] else [MinuteOf(fires[0].armed)] + ArmedMinutes(fires[1..])
  }

  /** From armed minute `k` the run fires every occurrence before minute `hi`, each once and in order. */
  ghost predicate Served(p: Pattern, k: nat, ticks: seq<nat>, hi: nat) {
    ArmedMinutes(Fires(p, Some(Instant(k)), ticks)) == Occurrences(k, hi, p)
  }

  /** The first minute not reached by the run. */
  function EndOf(ticks: seq<nat>): nat
    requires ticks != []
  {
    MinuteOf(ticks[|ticks| - 1]) + 1
  }

  /** With ticks at most 60 s apart, the first less than 60 s after the armed time, every
      occurrence reached by the run fires exactly once and in order. */
  lemma {:induction false} ExactlyOnce(p: Pattern, k: nat, ticks: seq<nat>)
    requires p(k) && Rearms(p, ticks)
    requires ticks != [] && Spaced(ticks, MINUTE) && ticks[0] < Instant(k + 1)
    ensures Served(p, k, ticks, EndOf(ticks))
    decreases |ticks|
  {
    if |ticks| == 1 {
      SingleTick(p, k, ticks);
    } else {
      var rest := RestOfRun(p, ticks);
      if ticks[0] < Instant(k) {
        ExactlyOnce(p, k, rest);
        FirstTick(p, Instant(k), ticks);
      } else {
        var n := FiredOnTime(p, k, ticks, EndOf(ticks));
        ExactlyOnce(p, n, rest);
      }
    }
  }

  lemma RestOfRun(p: Pattern, ticks: seq<nat>) returns (rest: seq<nat>)
    requires Rearms(p, ticks) && |ticks| > 1 && Spaced(ticks, MINUTE)
    ensures rest == ticks[1..] && rest != [] && EndOf(rest) == EndOf(ticks) && MinuteOf(ticks[0]) < EndOf(ticks)
    ensures Rearms(p, rest) && Spaced(rest, MINUTE) && rest[0] <= ticks[0] + MINUTE
  {
    rest := ticks[1..];
    LastNotBefore(ticks);
    forall i | 0 <= i < |rest| ensures NextMinute(MinuteOf(rest[i]), p).Some? {
      assert rest[i] == ticks[i + 1];
    }
  }

  lemma SingleTick(p: Pattern, k: nat, ticks: seq<nat>)
    requires p(k) && Rearms(p, ticks) && |ticks| == 1 && ticks[0] < Instant(k + 1)
    ensures Served(p, k, ticks, EndOf(ticks))
  {
    if ticks[0] >= Instant(k) {
      var n := FiredOnTime(p, k, ticks, EndOf(ticks));
      NothingLeft(p, Some(Instant(n)), n, EndOf(ticks));
    } else {
      FirstTick(p, Instant(k), ticks);
      NothingLeft(p, Some(Instant(k)), k, EndOf(ticks));
    }
  }

  /** A first tick in the armed minute. */
  lemma FiredOnTime(p: Pattern, k: nat, ticks: seq<nat>, hi: nat) returns (n: nat)
    requires p(k) && Rearms(p, ticks) && ticks != []
    requires Instant(k) <= ticks[0] < Instant(k + 1) && MinuteOf(ticks[0]) < hi
    ensures k < n && ticks[0] < Instant(n) && p(n)
    ensures Served(p, n, ticks[1..], hi) ==> Served(p, k, ticks, hi)
  {
    n := Fired(p, k, ticks, hi);
    NoneSkipped(k, Occurrences(n, hi, p), p);
  }

  /** A first tick that fires: the rest of the run goes on from the next occurrence after it, and
      those up to the minute of the tick are passed over. */
  lemma Fired(p: Pattern, k: nat, ticks: seq<nat>, hi: nat) returns (n: nat)
    requires p(k) && Rearms(p, ticks) && ticks != []
    requires Due(Instant(k), ticks[0], RECURRING_GRACE) && MinuteOf(ticks[0]) < hi
    ensures k <= MinuteOf(ticks[0]) < n && ticks[0] < Instant(n) && p(n)
    ensures ArmedMinutes(Fires(p, Some(Instant(k)), ticks))
         == [k] + ArmedMinutes(Fires(p, Some(Instant(n)), ticks[1..]))
    ensures Occurrences(k, hi, p) == [k] + Occurrences(k + 1, MinuteOf(ticks[0]) + 1, p) + Occurrences(n, hi, p)
  {
    FireStep(p, k, ticks[0]);
    n := NextMinute(MinuteOf(ticks[0]), p).value;
    FiredFirst(p, k, n, ticks);
    OccurrencesFrom(k, MinuteOf(ticks[0]), n, hi, p);
  }

  lemma FiredFirst(p: Pattern, k: nat, n: nat, ticks: seq<nat>)
    requires ticks != [] && Due(Instant(k), ticks[0], RECURRING_GRACE)
    requires RecurringStep(p, Some(Instant(k)), ticks[0]) == (Some(Instant(n)), true)
    ensures ArmedMinutes(Fires(p, Some(Instant(k)), ticks))
         == [k] + ArmedMinutes(Fires(p, Some(Instant(n)), ticks[1..]))
  {
    assert MinuteOf(Instant(k)) == k;
    FirstTick(p, Instant(k), ticks);
  }

  lemma OccurrencesFrom(k: nat, m: nat, n: nat, hi: nat, p: Pattern)
    requires k <= m < n && m < hi && p(k) && forall t :: m < t < n ==> !p(t)
    ensures Occurrences(k, hi, p) == [k] + Occurrences(k + 1, m + 1, p) + Occurrences(n, hi, p)
  {
    OccurrencesSplit(k + 1, m + 1, hi, p);
    OccurrencesSkip(m + 1, n, hi, p);
  }

  lemma OccurrencesSkip(lo: nat, n: nat, hi: nat, p: Pattern)
    requires lo <= n && forall t :: lo <= t < n ==> !p(t)
    ensures Occurrences(lo, hi, p) == Occurrences(n, hi, p)
  {
    if hi <= n {
      NoOccurrences(lo, hi, p);
    } else {
      NoOccurrences(lo, n, p);
      OccurrencesSplit(lo, n, hi, p);
    }
  }

  lemma NoneSkipped(k: nat, later: seq<nat>, p: Pattern)
    ensures [k] + Occurrences(k + 1, k + 1, p) + later == [k] + later
  {
  }

  lemma {:induction false} LastNotBefore(ticks: seq<nat>)
    requires ticks != [] && Spaced(ticks, MINUTE)
    ensures ticks[0] <= ticks[|ticks| - 1]
  {
    if |ticks| > 1 {
      LastNotBefore(ticks[1..]);
    }
  }

  lemma {:induction false} NoneBeforeFirst(ticks: seq<nat>, i: nat)
    requires i < |ticks| && Spaced(ticks, MINUTE)
    ensures ticks[0] <= ticks[i]
  {
    if i > 0 {
      NoneBeforeFirst(ticks[1..], i - 1);
    }
  }

  lemma FirstTooLate(p: Pattern, k: nat, ticks: seq<nat>)
    requires p(k) && ticks != [] && Spaced(ticks, MINUTE) && ticks[0] > Instant(k) + RECURRING_GRACE
    ensures !Served(p, k, ticks, EndOf(ticks))
  {
    forall i | 0 <= i < |ticks| ensures !Due(Instant(k), ticks[i], RECURRING_GRACE) {
      NoneBeforeFirst(ticks, i);
    }
    UnservedIff(p, Instant(k), ticks);
    NoneBeforeFirst(ticks, |ticks| - 1);
    assert k < EndOf(ticks);
  }

  /** After a first tick that fired, the rest of the run is served from the next occurrence on. */
  lemma RestServed(p: Pattern, n: nat, ticks: seq<nat>)
    requires p(n) && Rearms(p, ticks) && ticks != [] && Spaced(ticks, MINUTE) && ticks[0] < Instant(n)
    ensures Served(p, n, ticks[1..], EndOf(ticks))
  {
    if |ticks| == 1 {
      NothingLeft(p, Some(Instant(n)), n, EndOf(ticks));
    } else {
      var rest := RestOfRun(p, ticks);
      ExactlyOnce(p, n, rest);
    }
  }

  lemma NothingLeft(p: Pattern, armed: Option<nat>, n: nat, hi: nat)
    requires hi <= n
    ensures ArmedMinutes(Fires(p, armed, [])) == [] == Occurrences(n, hi, p)
  {
  }

  lemma FirstLate(p: Pattern, k: nat, ticks: seq<nat>)
    requires p(k) && Rearms(p, ticks) && ticks != [] && Spaced(ticks, MINUTE)
    requires Due(Instant(k), ticks[0], RECURRING_GRACE)
    ensures Served(p, k, ticks, EndOf(ticks)) <==> Occurrences(k + 1, MinuteOf(ticks[0]) + 1, p) == []
  {
    LastNotBefore(ticks);
    var hi := EndOf(ticks);
    var n := Fired(p, k, ticks, hi);
    RestServed(p, n, ticks);
    Inserted(k, Occurrences(k + 1, MinuteOf(ticks[0]) + 1, p), Occurrences(n, hi, p));
  }

  lemma Inserted(k: nat, a: seq<nat>, b: seq<nat>)
    ensures [k] + a + b == [k] + b <==> a == []
  {
    if a != [] {
      assert |[k] + a + b| > |[k] + b|;
    }
  }

  /** The exact condition on the first tick, for ticks at most 60 s apart: every occurrence reached
      fires exactly once and in order if and only if the first tick comes no later than five
      minutes after the armed time and before any further occurrence.  A first tick 60 s late can
      thus already skip one. */
  lemma {:induction false} ExactlyOnceIff(p: Pattern, k: nat, ticks: seq<nat>)
    requires p(k) && Rearms(p, ticks) && ticks != [] && Spaced(ticks, MINUTE)
    ensures Served(p, k, ticks, EndOf(ticks))
       <==> ticks[0] <= Instant(k + 5) && Occurrences(k + 1, MinuteOf(ticks[0]) + 1, p) == []
  {
    if ticks[0] < Instant(k + 1) {
      ExactlyOnce(p, k, ticks);
      assert MinuteOf(ticks[0]) + 1 <= k + 1;
    } else if ticks[0] > Instant(k) + RECURRING_GRACE {
      FirstTooLate(p, k, ticks);
    } else {
      FirstLate(p, k, ticks);
    }
  }

  /** The bound at work: a first tick exactly 60 s after the armed time, when the next minute is an
      occurrence too, fires the armed one and skips that one. */
  lemma SkipsAtSixtySeconds(p: Pattern, k: nat)
    requires p(k) && p(k + 1) && Rearms(p, [Instant(k + 1)])
    ensures ArmedMinutes(Fires(p, Some(Instant(k)), [Instant(k + 1)])) == [k]
    ensures Occurrences(k, EndOf([Instant(k + 1)]), p) == [k, k + 1]
  {
    var ticks := [Instant(k + 1)];
    assert MinuteOf(Instant(k + 1)) == k + 1;
    var n := Fired(p, k, ticks, k + 2);
    NothingLeft(p, Some(Instant(n)), n, k + 2);
    OneOccurrence(k + 1, p);
  }

  lemma OneOccurrence(k: nat, p: Pattern)
    requires p(k)
    ensures Occurrences(k, k + 1, p) == [k]
  {
    assert Occurrences(k + 1, k + 1, p) == [];
  }

  /** The whole-row form: an active row whose pattern parses and always has a next occurrence. */
  lemma {:induction false} ExactlyOnceRow(r: Row, c: Cron, k: nat, ticks: seq<nat>)
    requires r.isActive && r.Repeats() && Outcomes(r.pattern.value) == Parsed(c)
    requires r.scheduledTime == Some(Instant(k)) && Matches(k, c)
    requires forall m: nat :: NextMinute(m, Matching(c)).Some?
    requires ticks != [] && Spaced(ticks, MINUTE) && ticks[0] < Instant(k + 1)
    ensures ArmedMinutes(RowFires(r, ticks)) == Occurrences(k, EndOf(ticks), Matching(c))
    ensures RowAfter(r, ticks).isActive
  {
    RowRun(r, c, ticks);
    ExactlyOnce(Matching(c), k, ticks);
  }

  /** From creation on: a schedule is armed with the search's answer when it is created, so with
      ticks at most 60 s apart from that moment every occurrence after the minute of its creation
      fires exactly once and in order. */
  lemma {:induction false} ExactlyOnceFromCreation(p: Pattern, created: nat, ticks: seq<nat>)
    requires NextInstant(created, p).Some? && Rearms(p, ticks)
    requires ticks != [] && Spaced(ticks, MINUTE) && ticks[0] <= created + MINUTE
    ensures ArmedMinutes(Fires(p, NextInstant(created, p), ticks))
         == Occurrences(MinuteOf(created) + 1, EndOf(ticks), p)
  {
    var m := MinuteOf(created);
    var k := NextMinute(m, p).value;
    MinuteLater(created, ticks[0]);
    ExactlyOnce(p, k, ticks);
    OccurrencesSkip(m + 1, k, EndOf(ticks), p);
  }

  lemma MinuteLater(from: nat, t: nat)
    requires t <= from + MINUTE
    ensures t < Instant(MinuteOf(from) + 2)
  {
  }

  /** Patterns for which the hypothesis of `ExactlyOnceRow` holds outright: all dates, any
      weekdays; or all weekdays, a day of the month up to 28 and two months. */
  lemma AlwaysRearms(c: Cron)
    requires WellFormed(c)
    requires (AllOf(c.dom, 1, 32) && AllOf(c.month, 1, 13))
          || (AllOf(c.dow, 0, 7) && (exists d :: 1 <= d <= 28 && d in c.dom)
              && exists a, b :: a in c.month && b in c.month && a < b)
    ensures forall m: nat :: NextMinute(m, Matching(c)).Some?
  {
    var mi :| mi in c.minute;
    var h :| h in c.hour;
    var w :| w in c.dow;
    assert mi in Allowed(0) && h in Allowed(1) && w in Allowed(4);
    forall m: nat ensures NextMinute(m, Matching(c)).Some? {
      if AllOf(c.dom, 1, 32) && AllOf(c.month, 1, 13) {
        WeeklyReach(m, c);
      } else {
        var d :| 1 <= d <= 28 && d in c.dom;
        var a, b :| a in c.month && b in c.month && a < b;
        assert a in Allowed(3) && b in Allowed(3);
        TwoMonthsReach(m, c, a, b, d);
      }
    }
  }

  // ---------------------------------------------------------------- when the search finds nothing

  /** When no tick of the run finds a next occurrence, every tick within the five minutes fires. */
  lemma {:induction false} RefireLaw(p: Pattern, st: nat, ticks: seq<nat>)
    requires forall i :: 0 <= i < |ticks| && Due(st, ticks[i], RECURRING_GRACE) ==>
               NextMinute(MinuteOf(ticks[i]), p).None?
    ensures Fires(p, Some(st), ticks) == DueFires(st, ticks)
    ensures ArmedAfter(p, Some(st), ticks) == Some(st)
  {
    if ticks != [] {
      RefireLaw(p, st, ticks[1..]);
    }
  }

  function DueFires(st: nat, ticks: seq<nat>): seq<Fire> {
    if ticks == [] then []
    else (if Due(st, ticks[0], RECURRING_GRACE) then [Fire(st, ticks[0])] else []) + DueFires(st, ticks[1..])
  }

  /** A yearly schedule armed for an occurrence followed by a leap day fires at every tick of its
      five minutes and then never again. */
  lemma {:induction false} YearlyLeapRefires(c: Cron, y: nat, mo: nat, d: nat, h: nat, mi: nat, ticks: seq<nat>)
    requires 1 <= y && Yearly(c, mo, d, h, mi) && LeapGap(y, mo)
    ensures var st := Instant(YearlyMinute(y, mo, d, h, mi));
            && Fires(Matching(c), Some(st), ticks) == DueFires(st, ticks)
            && ArmedAfter(Matching(c), Some(st), ticks) == Some(st)
  {
    var k := YearlyMinute(y, mo, d, h, mi);
    YearlyGap(y, mo, d, h, mi);
    forall i | 0 <= i < |ticks| && Due(Instant(k), ticks[i], RECURRING_GRACE)
      ensures NextMinute(MinuteOf(ticks[i]), Matching(c)).None?
    {
      assert k <= MinuteOf(ticks[i]) <= k + 5;
      YearlyReach(MinuteOf(ticks[i]), y, c, mo, d, h, mi);
    }
    RefireLaw(Matching(c), Instant(k), ticks);
  }

  /** Two ticks inside the five minutes of a yearly occurrence fire it twice if a leap day
      follows, and once otherwise. */
  lemma {:induction false} YearlyDoubleFireIff(c: Cron, y: nat, mo: nat, d: nat, h: nat, mi: nat, a: nat, b: nat)
    requires 1 <= y && Yearly(c, mo, d, h, mi)
    requires var st := Instant(YearlyMinute(y, mo, d, h, mi));
             Due(st, a, RECURRING_GRACE) && Due(st, b, RECURRING_GRACE)
    ensures |Fires(Matching(c), Some(Instant(YearlyMinute(y, mo, d, h, mi))), [a, b])|
         == if LeapGap(y, mo) then 2 else 1
  {
    var k := YearlyMinute(y, mo, d, h, mi);
    YearlyGap(y, mo, d, h, mi);
    assert [a, b][1..] == [b] && [b][1..] == [];
    if LeapGap(y, mo) {
      YearlyLeapRefires(c, y, mo, d, h, mi, [a, b]);
      assert DueFires(Instant(k), [a, b]) == [Fire(Instant(k), a)] + DueFires(Instant(k), [b]);
      assert DueFires(Instant(k), [b]) == [Fire(Instant(k), b)] + DueFires(Instant(k), []);
    } else {
      assert k <= MinuteOf(a) <= k + 5;
      YearlyReach(MinuteOf(a), y, c, mo, d, h, mi);
      var n := YearlyMinute(y + 1, mo, d, h, mi);
      assert b < Instant(n);
      assert Fires(Matching(c), Some(Instant(k)), [a, b])
          == [Fire(Instant(k), a)] + Fires(Matching(c), Some(Instant(n)), [b]);
      assert Fires(Matching(c), Some(Instant(n)), [b]) == Fires(Matching(c), Some(Instant(n)), []);
    }
  }

  // ---------------------------------------------------------------- one-shot schedules

  /** A one-shot fires at most once per activation, exactly when some tick falls within the 120 s
      after its time, and is then inactive. */
  lemma {:induction false} OneShotLaw(r: Row, ticks: seq<nat>)
    requires r.isActive && !r.Repeats() && r.scheduledTime.Some?
    ensures |RowFires(r, ticks)| <= 1
    ensures |RowFires(r, ticks)| == 1
       <==> exists i :: 0 <= i < |ticks| && Due(r.scheduledTime.value, ticks[i], ONE_SHOT_GRACE)
    ensures RowAfter(r, ticks) == r.(isActive := |RowFires(r, ticks)| == 0)
    decreases |ticks|
  {
    if ticks != [] {
      var st := r.scheduledTime.value;
      if Due(st, ticks[0], ONE_SHOT_GRACE) {
        InactiveStays(r.(isActive := false), ticks[1..]);
      } else {
        OneShotLaw(r, ticks[1..]);
        if i :| 0 <= i < |ticks| && Due(st, ticks[i], ONE_SHOT_GRACE) {
          assert ticks[1..][i - 1] == ticks[i];
        }
      }
    }
  }

  lemma {:induction false} InactiveStays(r: Row, ticks: seq<nat>)
    requires !r.isActive
    ensures RowFires(r, ticks) == [] && RowAfter(r, ticks) == r
    decreases |ticks|
  {
    if ticks != [] {
      InactiveStays(r, ticks[1..]);
    }
  }

  /** Ticks at most 120 s apart that reach a one-shot's time fire it exactly once. */
  lemma OneShotServed(r: Row, ticks: seq<nat>)
    requires r.isActive && !r.Repeats() && r.scheduledTime.Some?
    requires ticks != [] && Spaced(ticks, ONE_SHOT_GRACE)
    requires ticks[0] <= r.scheduledTime.value + ONE_SHOT_GRACE && r.scheduledTime.value <= ticks[|ticks| - 1]
    ensures |RowFires(r, ticks)| == 1 && !RowAfter(r, ticks).isActive
  {
    var i := FirstReached(r.scheduledTime.value, ticks);
    OneShotLaw(r, ticks);
  }

  lemma {:induction false} FirstReached(st: nat, ticks: seq<nat>) returns (i: nat)
    requires ticks != [] && Spaced(ticks, ONE_SHOT_GRACE)
    requires ticks[0] <= st + ONE_SHOT_GRACE && st <= ticks[|ticks| - 1]
    ensures i < |ticks| && Due(st, ticks[i], ONE_SHOT_GRACE)
    decreases |ticks|
  {
    if st <= ticks[0] {
      i := 0;
    } else {
      var j := FirstReached(st, ticks[1..]);
      i := j + 1;
    }
  }
}
