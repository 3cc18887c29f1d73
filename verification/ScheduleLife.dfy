/** The life of a schedule row: its creation, then ticks and toggles in any order
    (panel/main.py:2018-2037, 2054-2068). */
module ScheduleLife {
  import opened Prelude
  import opened Text
  import opened CronSearch
  import opened CronParse
  import opened CronExecutor

  datatype Creation = Created(row: Row) | Aborted

  const WIDTH := 50  // of the column that holds the pattern

  predicate Blanks(s: string) {
    forall k :: 0 <= k < |s| ==> s[k] == ' '
  }

  /** A pattern as the table stores it: blanks past the width are cut off, anything else past it
      is an error. */
  function Fit(pattern: string): Option<string> {
    if |pattern| <= WIDTH then Some(pattern)
    else if Blanks(pattern[WIDTH..]) then Some(pattern[..WIDTH])
    else None
  }

  /** `create_server_schedule`: a repeating row is armed by the search when its pattern parses.  A
      parser error aborts the request, and so do a missing time and a pattern that does not fit,
      which the table does not allow. */
  function Create(recurring: bool, pattern: Option<string>, time: Option<nat>, now: nat): Creation {
    var r := Row(true, recurring, pattern, time);
    if !r.Repeats() then Insert(r)
    else
      match Outcomes(pattern.value)
      case DivisionByZero => Aborted
      case Rejected => Insert(r)
      case Parsed(c) => Insert(r.(scheduledTime := NextInstant(now, Matching(c))))
  }

  function Insert(r: Row): Creation {
    if r.scheduledTime.None? then Aborted
    else if r.pattern.None? then Created(r)
    else
      match Fit(r.pattern.value)
      case None => Aborted
      case Some(text) => Created(r.(pattern := Some(text)))
  }

  lemma {:induction false} BlankWords(s: string)
    requires Blanks(s)
    ensures Words(s) == []
  {
    if s != "" {
      BlankWords(s[1..]);
    }
  }

  lemma {:induction false} TrailingBlanks(s: string, blanks: string)
    requires Blanks(blanks)
    ensures Words(s + blanks) == Words(s)
    decreases |s|
  {
    if s == "" {
      assert s + blanks == blanks;
      BlankWords(blanks);
    } else if IsSpace(s[0]) {
      assert (s + blanks)[1..] == s[1..] + blanks;
      TrailingBlanks(s[1..], blanks);
    } else {
      var n := WordLength(s);
      assert s == s[..n] + s[n..] && s + blanks == s[..n] + (s[n..] + blanks);
      TrailingBlanks(s[n..], blanks);
      WordsStep(s[..n], s[n..]);
      WordsStep(s[..n], s[n..] + blanks);
    }
  }

  /** Cutting blanks off does not change what a pattern means. */
  lemma FitMeaning(pattern: string)
    ensures Fit(pattern).Some? ==> Words(Fit(pattern).value) == Words(pattern)
    ensures Fit(pattern).Some? ==> (Fit(pattern).value == "" <==> pattern == "")
  {
    if |pattern| > WIDTH {
      assert pattern == pattern[..WIDTH] + pattern[WIDTH..];
      if Blanks(pattern[WIDTH..]) {
        TrailingBlanks(pattern[..WIDTH], pattern[WIDTH..]);
      }
    }
  }

  /** A pattern fits exactly when nothing but blanks comes after its 50th character. */
  lemma FitIff(pattern: string)
    ensures Fit(pattern).Some? <==> forall k :: 50 <= k < |pattern| ==> pattern[k] == ' '
  {
    if |pattern| > 50 {
      assert forall k :: 50 <= k < |pattern| ==> pattern[k] == pattern[50..][k - 50];
    }
  }

  lemma FitOutcome(pattern: string)
    ensures Fit(pattern).Some? ==> Outcomes(Fit(pattern).value) == Outcomes(pattern)
  {
    FitMeaning(pattern);
  }

  method CreateSchedule(recurring: bool, pattern: Option<string>, time: Option<nat>, now: nat)
    returns (s: ServerSchedule?)
    ensures s == null <==> Create(recurring, pattern, time, now) == Aborted
    ensures s != null ==> fresh(s) && Create(recurring, pattern, time, now) == Created(s.View())
  {
    var scheduledTime := time;
    if recurring && pattern.Some? && pattern.value != "" {
      var cron := ParseCron(pattern.value);
      if cron.DivisionByZero? {
        return null;
      }
      if cron.Parsed? {
        var next := NextCron(MinuteOf(now), cron.cron);
        scheduledTime := if next.Some? then Some(Instant(next.value)) else None;
      }
    }
    if scheduledTime.None? {
      return null;
    }
    if pattern.None? {
      s := new ServerSchedule(recurring, None, scheduledTime);
    } else {
      var text := Fit(pattern.value);
      if text.None? {
        return null;
      }
      s := new ServerSchedule(recurring, text, scheduledTime);
    }
  }

  /** What happens to a row once it is stored. */
  datatype Event = Tick(live: bool, now: nat) | Toggle

  function Apply(r: Row, e: Event): Row {
    match e
    case Tick(live, now) => TickRow(r, live, now).0
    case Toggle => Toggled(r)
  }

  function After(r: Row, events: seq<Event>): Row
    decreases |events|
  {
    if events == [] then r else After(Apply(r, events[0]), events[1..])
  }

  // ---------------------------------------------------------------- what every row keeps

  /** The time is that of an occurrence. */
  ghost predicate ArmedFor(p: Pattern, time: Option<nat>) {
    exists k: nat :: time == Some(Instant(k)) && p(k)
  }

  /** The row has a time; its pattern does not raise, and if it parses the time is that of an occurrence. */
  ghost predicate Sound(r: Row) {
    && r.scheduledTime.Some?
    && (r.Repeats() ==>
          match Outcomes(r.pattern.value)
          case DivisionByZero => false
          case Rejected => true
          case Parsed(c) => ArmedFor(Matching(c), r.scheduledTime))
  }

  lemma SearchArms(p: Pattern, now: nat)
    ensures NextInstant(now, p).Some? ==> ArmedFor(p, NextInstant(now, p))
  {
    var m := NextMinute(MinuteOf(now), p);
    assert m.Some? ==> NextInstant(now, p) == Some(Instant(m.value)) && p(m.value);
  }

  lemma StepArms(p: Pattern, armed: Option<nat>, now: nat)
    requires ArmedFor(p, armed)
    ensures ArmedFor(p, RecurringStep(p, armed, now).0)
  {
    SearchArms(p, now);
  }

  lemma {:induction false} CreatedSound(recurring: bool, pattern: Option<string>, time: Option<nat>, now: nat)
    requires Create(recurring, pattern, time, now).Created?
    ensures Sound(Create(recurring, pattern, time, now).row)
  {
    if pattern.Some? {
      FitMeaning(pattern.value);
      FitOutcome(pattern.value);
    }
    if recurring && pattern.Some? && Outcomes(pattern.value).Parsed? {
      SearchArms(Matching(Outcomes(pattern.value).cron), now);
    }
  }

  lemma {:induction false} KeepsSound(r: Row, e: Event)
    requires Sound(r)
    ensures Sound(Apply(r, e))
  {
    if e.Tick? && r.Repeats() && Outcomes(r.pattern.value).Parsed? {
      StepArms(Matching(Outcomes(r.pattern.value).cron), r.scheduledTime, e.now);
    }
  }

  lemma {:induction false} AfterSound(r: Row, events: seq<Event>)
    requires Sound(r)
    ensures Sound(After(r, events))
    decreases |events|
  {
    if events != [] {
      KeepsSound(r, events[0]);
      AfterSound(Apply(r, events[0]), events[1..]);
    }
  }

  /** Every row that the panel ever holds is sound: in particular a repeating row with a parsed
      pattern is always armed for an occurrence, as the laws of its fires require. */
  lemma {:induction false} LifeSound(recurring: bool, pattern: Option<string>, time: Option<nat>, now: nat,
                                     events: seq<Event>)
    requires Create(recurring, pattern, time, now).Created?
    ensures Sound(After(Create(recurring, pattern, time, now).row, events))
  {
    CreatedSound(recurring, pattern, time, now);
    AfterSound(Create(recurring, pattern, time, now).row, events);
  }

  /** A pattern that raises never reaches the executor: its row is not created. */
  lemma {:induction false} NeverCrashes(recurring: bool, pattern: Option<string>, time: Option<nat>, now: nat,
                                        events: seq<Event>, live: bool)
    requires Create(recurring, pattern, time, now).Created?
    ensures !Crashes(After(Create(recurring, pattern, time, now).row, events), live)
  {
    LifeSound(recurring, pattern, time, now, events);
  }

  /** A pass over sound rows serves them all, and they stay sound. */
  method Pass(rows: seq<ServerSchedule>, live: seq<bool>, now: nat) returns (fired: seq<bool>)
    requires |live| == |rows|
    requires forall i, j :: 0 <= i < j < |rows| ==> rows[i] != rows[j]
    requires forall i :: 0 <= i < |rows| ==> Sound(Views(rows)[i])
    modifies rows
    ensures AllVisited(|rows|, old(Views(rows)), live, now, Views(rows), fired)
    ensures forall i :: 0 <= i < |rows| ==> Sound(Views(rows)[i])
  {
    ghost var before := Views(rows);
    var crashed;
    crashed, fired := RunDueSchedules(rows, live, now);
    assert !crashed;
    forall i | 0 <= i < |rows| ensures Sound(Views(rows)[i]) {
      KeepsSound(before[i], Tick(live[i], now));
    }
  }

  /** A schedule created with a pattern that parses fires, with ticks at most 60 s apart from then
      on, every occurrence after the minute of its creation exactly once and in order. */
  lemma {:induction false} CreatedExactlyOnce(pattern: string, c: Cron, time: Option<nat>, now: nat, ticks: seq<nat>)
    requires Rearms(Matching(c), ticks) && ticks != [] && Spaced(ticks, MINUTE) && ticks[0] <= now + MINUTE
    ensures var created := Create(true, Some(pattern), time, now);
            pattern != "" && Outcomes(pattern) == Parsed(c) && created.Created? ==>
              ArmedMinutes(RowFires(created.row, ticks))
              == Occurrences(MinuteOf(now) + 1, EndOf(ticks), Matching(c))
  {
    var created := Create(true, Some(pattern), time, now);
    if pattern != "" && Outcomes(pattern) == Parsed(c) && created.Created? {
      FitMeaning(pattern);
      FitOutcome(pattern);
      RowRun(created.row, c, ticks);
      ExactlyOnceFromCreation(Matching(c), now, ticks);
    }
  }

  /** Between two occurrences of a yearly pattern a schedule cannot be created exactly when a leap
      day makes the gap 366 days long and less than 24 hours of it have passed. */
  lemma {:induction false} YearlyCreateIff(pattern: string, time: Option<nat>, now: nat,
                                           y: nat, c: Cron, mo: nat, d: nat, h: nat, mi: nat)
    requires 1 <= y && Yearly(c, mo, d, h, mi)
    requires YearlyMinute(y, mo, d, h, mi) <= MinuteOf(now) < YearlyMinute(y + 1, mo, d, h, mi)
    ensures pattern != "" && Fit(pattern).Some? && Outcomes(pattern) == Parsed(c) ==>
              (Create(true, Some(pattern), time, now) == Aborted
               <==> LeapGap(y, mo) && MinuteOf(now) < YearlyMinute(y, mo, d, h, mi) + DAY)
  {
    YearlyReach(MinuteOf(now), y, c, mo, d, h, mi);
  }

  /** A one-shot is stored with the time asked for, and with ticks at most 120 s apart that reach it
      fires exactly once, within the 120 s after that time, and is then inactive. */
  lemma {:induction false} CreatedOneShot(pattern: Option<string>, st: nat, now: nat, ticks: seq<nat>)
    requires pattern.None? || Fit(pattern.value).Some?
    requires ticks != [] && Spaced(ticks, 120_000_000)
    requires ticks[0] <= st + 120_000_000 && st <= ticks[|ticks| - 1]
    ensures var created := Create(false, pattern, Some(st), now);
            && created.Created? && created.row.scheduledTime == Some(st)
            && |RowFires(created.row, ticks)| == 1 && RowFires(created.row, ticks)[0].armed == st
            && st <= RowFires(created.row, ticks)[0].at <= st + 120_000_000
            && !RowAfter(created.row, ticks).isActive
  {
    var row := Create(false, pattern, Some(st), now).row;
    OneShotServed(row, ticks);
    OneShotFires(row, ticks);
  }

  lemma {:induction false} OneShotFires(r: Row, ticks: seq<nat>)
    requires !r.Repeats() && r.scheduledTime.Some?
    ensures forall i :: 0 <= i < |RowFires(r, ticks)| ==>
              RowFires(r, ticks)[i].armed == r.scheduledTime.value
              && Due(r.scheduledTime.value, RowFires(r, ticks)[i].at, ONE_SHOT_GRACE)
    decreases |ticks|
  {
    if ticks != [] {
      OneShotFires(TickRow(r, true, ticks[0]).0, ticks[1..]);
    }
  }

  /** A repeating row whose pattern does not parse is stored all the same, with the time asked for,
      and never fires. */
  lemma {:induction false} RejectedStored(pattern: string, st: nat, now: nat, events: seq<Event>)
    requires pattern != "" && Fit(pattern).Some?
    ensures var created := Create(true, Some(pattern), Some(st), now);
            Outcomes(pattern).Rejected? ==>
              && created.Created? && created.row.isActive && created.row.scheduledTime == Some(st)
              && FireCount(created.row, events) == 0
  {
    if Outcomes(pattern).Rejected? {
      FitMeaning(pattern);
      FitOutcome(pattern);
      OverIsDead(Create(true, Some(pattern), Some(st), now).row, 0, events);
    }
  }

  // ---------------------------------------------------------------- when a schedule is dead

  /** The event fires the row. */
  predicate FiresOn(r: Row, e: Event) {
    e.Tick? && TickRow(r, e.live, e.now).1
  }

  /** The number of fires over a sequence of events. */
  function FireCount(r: Row, events: seq<Event>): nat
    decreases |events|
  {
    if events == [] then 0
    else (if FiresOn(r, events[0]) then 1 else 0) + FireCount(Apply(r, events[0]), events[1..])
  }

  /** How long after its time the row may still fire; never, if its pattern is rejected. */
  function Grace(r: Row): Option<nat> {
    if !r.Repeats() then Some(ONE_SHOT_GRACE)
    else if Outcomes(r.pattern.value).Parsed? then Some(RECURRING_GRACE)
    else None
  }

  /** A tick at `now` finds the row due. */
  predicate DueAt(r: Row, now: nat) {
    r.scheduledTime.Some? && Grace(r).Some? && Due(r.scheduledTime.value, now, Grace(r).value)
  }

  /** A row with a time fires exactly at a tick that finds it active, live and due. */
  lemma FiresOnIff(r: Row, e: Event)
    requires r.scheduledTime.Some?
    ensures FiresOn(r, e) <==> e.Tick? && r.isActive && e.live && DueAt(r, e.now)
  {
  }

  /** An event that does not fire the row leaves all but its switch. */
  lemma QuietEvent(r: Row, e: Event)
    requires r.scheduledTime.Some? && !FiresOn(r, e)
    ensures Apply(r, e) == r.(isActive := Apply(r, e).isActive) && Grace(Apply(r, e)) == Grace(r)
  {
  }

  /** All ticks come at `t` or later. */
  predicate From(events: seq<Event>, t: nat) {
    forall i :: 0 <= i < |events| && events[i].Tick? ==> t <= events[i].now
  }

  /** Whatever happens from `t` on, the row never fires. */
  ghost predicate Dead(r: Row, t: nat) {
    forall events :: From(events, t) ==> FireCount(r, events) == 0
  }

  /** The time is past. */
  predicate Over(r: Row, t: nat) {
    r.scheduledTime.Some? && (Grace(r).None? || t > r.scheduledTime.value + Grace(r).value)
  }

  lemma {:induction false} OverIsDead(r: Row, t: nat, events: seq<Event>)
    requires Over(r, t) && From(events, t)
    ensures FireCount(r, events) == 0
    decreases |events|
  {
    if events != [] {
      var e := events[0];
      FiresOnIff(r, e);
      QuietEvent(r, e);
      OverIsDead(Apply(r, e), t, events[1..]);
    }
  }

  lemma OneMoreFire(r: Row, now: nat)
    requires DueAt(r, now)
    ensures var wake := if r.isActive then [] else [Toggle];
            From(wake + [Tick(true, now)], now) && FireCount(r, wake + [Tick(true, now)]) == 1
  {
    var tick := Tick(true, now);
    var awake := r.(isActive := true);
    FiresOnIff(awake, tick);
    assert DueAt(awake, now);
    assert [tick][1..] == [] && FireCount(awake, [tick]) == 1;
    if !r.isActive {
      assert ([Toggle] + [tick])[1..] == [tick] && Apply(r, Toggle) == awake;
      assert FireCount(r, [Toggle] + [tick]) == FireCount(awake, [tick]);
    } else {
      assert [] + [tick] == [tick] && awake == r;
    }
  }

  /** The exact condition for a row to be dead: it will never fire again, whatever ticks and toggles
      come from `t` on, if and only if its pattern is rejected or `t` is more than five minutes (for
      a one-shot, 120 s) after its time.  Toggling does not arm it again. */
  lemma {:induction false} DeadIff(r: Row, t: nat)
    requires r.scheduledTime.Some?
    ensures Dead(r, t) <==> Over(r, t)
  {
    if Over(r, t) {
      forall events | From(events, t) ensures FireCount(r, events) == 0 {
        OverIsDead(r, t, events);
      }
    } else {
      var st := r.scheduledTime.value;
      var now := if t >= st then t else st;
      OneMoreFire(r, now);
      var wake := if r.isActive then [] else [Toggle];
      assert From(wake + [Tick(true, now)], t);
    }
  }

  /** Events that do not fire the row leave all but its switch. */
  lemma {:induction false} Unfired(r: Row, events: seq<Event>)
    requires r.scheduledTime.Some? && FireCount(r, events) == 0
    ensures After(r, events) == r.(isActive := After(r, events).isActive) && Grace(After(r, events)) == Grace(r)
    decreases |events|
  {
    if events != [] {
      QuietEvent(r, events[0]);
      Unfired(Apply(r, events[0]), events[1..]);
    }
  }

  /** A row that has not fired when its time is past, because it was switched off or no tick came,
      is dead: no later tick or toggle makes it fire again. */
  lemma {:induction false} UnservedDies(r: Row, events: seq<Event>, t: nat)
    requires FireCount(r, events) == 0 && Over(r, t)
    ensures Dead(After(r, events), t)
  {
    Unfired(r, events);
    DeadIff(After(r, events), t);
  }

  /** In particular one that is switched off while its five minutes pass. */
  lemma {:induction false} SwitchedOff(r: Row, events: seq<Event>, t: nat)
    requires !r.isActive && (forall i :: 0 <= i < |events| ==> events[i].Tick?) && Over(r, t)
    ensures FireCount(r, events) == 0 && Dead(After(r, events), t)
  {
    OffQuiet(r, events);
    UnservedDies(r, events, t);
  }

  lemma {:induction false} OffQuiet(r: Row, events: seq<Event>)
    requires !r.isActive && forall i :: 0 <= i < |events| ==> events[i].Tick?
    ensures FireCount(r, events) == 0
    decreases |events|
  {
    if events != [] {
      OffQuiet(r, events[1..]);
    }
  }
}
