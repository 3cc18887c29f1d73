/** The sliding-window login throttle (panel/main.py:478-528).

    Times are microseconds.  A request reads the clock when it checks and again when it records a
    failure or clears the attempts; requests are serial. */
module LoginThrottle {

  const MAX_ATTEMPTS := 5
  const LOCKOUT := 600_000_000  // 600 seconds

  datatype Attempt = Attempt(username: string, ip: string, at: int)

  /** What attempts are counted by. */
  datatype Key = ByUsername(username: string) | ByIp(ip: string)

  predicate Has(a: Attempt, key: Key) {
    match key
    case ByUsername(u) => a.username == u
    case ByIp(ip) => a.ip == ip
  }

  /** The number of rows of `key` at or after `since`. */
  function CountSince(rows: seq<Attempt>, key: Key, since: int): nat {
    if rows == [] then 0
    else (if Has(rows[0], key) && rows[0].at >= since then 1 else 0) + CountSince(rows[1..], key, since)
  }

  /** The attempt counts for `key` in the closed window of LOCKOUT from `from`. */
  predicate Counts(a: Attempt, key: Key, from: int) {
    Has(a, key) && from <= a.at <= from + LOCKOUT
  }

  /** The number of rows of `key` in the closed window of LOCKOUT from `from`. */
  function CountWindow(rows: seq<Attempt>, key: Key, from: int): nat {
    if rows == [] then 0
    else (if Counts(rows[0], key, from) then 1 else 0) + CountWindow(rows[1..], key, from)
  }

  /** `_login_attempt_count`. */
  function AttemptCount(rows: seq<Attempt>, username: string, ip: string, now: int): nat {
    var a, b := CountSince(rows, ByUsername(username), now - LOCKOUT), CountSince(rows, ByIp(ip), now - LOCKOUT);
    if a >= b then a else b
  }

  predicate Cleared(a: Attempt, username: string, ip: string, since: int) {
    (a.username == username || a.ip == ip) && a.at >= since
  }

  /** The rows a successful login leaves. */
  function Remaining(rows: seq<Attempt>, username: string, ip: string, since: int): seq<Attempt> {
    if rows == [] then []
    else (if Cleared(rows[0], username, ip, since) then [] else [rows[0]]) + Remaining(rows[1..], username, ip, since)
  }

  datatype Outcome = Throttled | Rejected | Accepted

  /** A login: who, from where, whether the password is right, and the two clock readings. */
  datatype Request = Request(username: string, ip: string, valid: bool, checked: int, written: int)

  function Login(rows: seq<Attempt>, q: Request): (seq<Attempt>, Outcome) {
    if AttemptCount(rows, q.username, q.ip, q.checked) >= MAX_ATTEMPTS then (rows, Throttled)
    else if !q.valid then (rows + [Attempt(q.username, q.ip, q.written)], Rejected)
    else (Remaining(rows, q.username, q.ip, q.written - LOCKOUT), Accepted)
  }

  class Throttle {
    var rows: seq<Attempt>

    constructor ()
      ensures rows == []
    {
      rows := [];
    }

    /** `_check_login_throttle`. */
    method Check(username: string, ip: string, now: int) returns (pass: bool)
      ensures pass <==> CountSince(rows, ByUsername(username), now - LOCKOUT) < MAX_ATTEMPTS
                        && CountSince(rows, ByIp(ip), now - LOCKOUT) < MAX_ATTEMPTS
    {
      pass := AttemptCount(rows, username, ip, now) < MAX_ATTEMPTS;
    }

    /** `_record_login_failure`. */
    method RecordFailure(username: string, ip: string, now: int)
      modifies this
      ensures rows == old(rows) + [Attempt(username, ip, now)]
    {
      rows := rows + [Attempt(username, ip, now)];
    }

    /** `_clear_login_throttle`. */
    method Clear(username: string, ip: string, now: int)
      modifies this
      ensures rows == Remaining(old(rows), username, ip, now - LOCKOUT)
    {
      rows := Remaining(rows, username, ip, now - LOCKOUT);
    }

    /** `login`. */
    method HandleLogin(q: Request) returns (r: Outcome)
      modifies this
      ensures (rows, r) == Login(old(rows), q)
    {
      var pass := Check(q.username, q.ip, q.checked);
      if !pass {
        return Throttled;
      }
      if !q.valid {
        RecordFailure(q.username, q.ip, q.written);
        return Rejected;
      }
      Clear(q.username, q.ip, q.written);
      return Accepted;
    }
  }

  // ---------------------------------------------------------------- the bound

  ghost predicate Bounded(rows: seq<Attempt>) {
    forall key: Key, from: int :: CountWindow(rows, key, from) <= MAX_ATTEMPTS
  }

  lemma {:induction false} WindowAppend(rows: seq<Attempt>, a: Attempt, key: Key, from: int)
    ensures CountWindow(rows + [a], key, from)
         == CountWindow(rows, key, from) + if Counts(a, key, from) then 1 else 0
  {
    if rows == [] {
      assert [a][1..] == [];
    } else {
      assert (rows + [a])[1..] == rows[1..] + [a];
      WindowAppend(rows[1..], a, key, from);
    }
  }

  lemma {:induction false} WindowWithin(rows: seq<Attempt>, key: Key, from: int, since: int)
    requires since <= from
    ensures CountWindow(rows, key, from) <= CountSince(rows, key, since)
  {
    if rows != [] {
      WindowWithin(rows[1..], key, from, since);
    }
  }

  lemma {:induction false} WindowRemaining(rows: seq<Attempt>, username: string, ip: string, since: int,
                                           key: Key, from: int)
    ensures CountWindow(Remaining(rows, username, ip, since), key, from) <= CountWindow(rows, key, from)
  {
    if rows != [] {
      var rest := Remaining(rows[1..], username, ip, since);
      WindowRemaining(rows[1..], username, ip, since, key, from);
      if Cleared(rows[0], username, ip, since) {
        assert Remaining(rows, username, ip, since) == rest;
      } else {
        assert ([rows[0]] + rest)[1..] == rest;
      }
    }
  }

  /** One login keeps every window bounded. */
  lemma LoginBounded(rows: seq<Attempt>, q: Request)
    requires Bounded(rows) && q.checked <= q.written
    ensures Bounded(Login(rows, q).0)
  {
    forall key: Key, from: int ensures CountWindow(Login(rows, q).0, key, from) <= MAX_ATTEMPTS {
      if Login(rows, q).1 == Rejected {
        var a := Attempt(q.username, q.ip, q.written);
        WindowAppend(rows, a, key, from);
        if Counts(a, key, from) {
          WindowWithin(rows, key, from, q.checked - LOCKOUT);
        }
      } else if Login(rows, q).1 == Accepted {
        WindowRemaining(rows, q.username, q.ip, q.written - LOCKOUT, key, from);
      }
    }
  }

  function Rows(qs: seq<Request>): seq<Attempt> {
    if qs == [] then [] else Login(Rows(qs[..|qs| - 1]), qs[|qs| - 1]).0
  }

  /** Main result: after any run of serial logins, every closed window of 600 s holds at most five
      stored attempts for any one username and at most five for any one address. */
  lemma {:induction false} RunBounded(qs: seq<Request>)
    requires forall i :: 0 <= i < |qs| ==> qs[i].checked <= qs[i].written
    ensures Bounded(Rows(qs))
    decreases |qs|
  {
    if qs != [] {
      RunBounded(qs[..|qs| - 1]);
      LoginBounded(Rows(qs[..|qs| - 1]), qs[|qs| - 1]);
    }
  }

  // ---------------------------------------------------------------- failed logins

  function OutcomeAt(qs: seq<Request>, i: nat): Outcome
    requires i < |qs|
  {
    Login(Rows(qs[..i]), qs[i]).1
  }

  function Written(q: Request): Attempt {
    Attempt(q.username, q.ip, q.written)
  }

  /** The number of logins of the run that were rejected for `key` in the window. */
  function Failures(qs: seq<Request>, key: Key, from: int): nat {
    if qs == [] then 0
    else
      var last := |qs| - 1;
      Failures(qs[..last], key, from)
      + if OutcomeAt(qs, last) == Rejected && Counts(Written(qs[last]), key, from) then 1 else 0
  }

  /** No accepted login clears an earlier failure that counts. */
  ghost predicate NoneCleared(qs: seq<Request>, key: Key, from: int) {
    forall i, j ::
      && 0 <= i < j < |qs| && OutcomeAt(qs, i) == Rejected && OutcomeAt(qs, j) == Accepted
      && Counts(Written(qs[i]), key, from)
      ==> !Cleared(Written(qs[i]), qs[j].username, qs[j].ip, qs[j].written - LOCKOUT)
  }

  lemma OutcomeOfPrefix(qs: seq<Request>, n: nat, i: nat)
    requires i < n <= |qs|
    ensures OutcomeAt(qs[..n], i) == OutcomeAt(qs, i)
  {
    assert qs[..n][..i] == qs[..i];
  }

  /** Every row was written by a rejected login. */
  lemma {:induction false} RowOrigin(qs: seq<Request>, a: Attempt) returns (i: nat)
    requires a in Rows(qs)
    ensures i < |qs| && OutcomeAt(qs, i) == Rejected && Written(qs[i]) == a
  {
    var last := |qs| - 1;
    var before, q := Rows(qs[..last]), qs[last];
    if OutcomeAt(qs, last) == Rejected && a == Written(q) {
      i := last;
    } else {
      if OutcomeAt(qs, last) == Accepted {
        RemainingUncleared(before, q.username, q.ip, q.written - LOCKOUT, a);
      }
      i := RowOrigin(qs[..last], a);
      OutcomeOfPrefix(qs, last, i);
    }
  }

  lemma {:induction false} RemainingCounts(rows: seq<Attempt>, username: string, ip: string, since: int,
                                           key: Key, from: int)
    requires forall a :: a in rows && Counts(a, key, from) ==> !Cleared(a, username, ip, since)
    ensures CountWindow(Remaining(rows, username, ip, since), key, from) == CountWindow(rows, key, from)
  {
    if rows != [] {
      assert rows[0] in rows;
      var rest := Remaining(rows[1..], username, ip, since);
      RemainingCounts(rows[1..], username, ip, since, key, from);
      if Cleared(rows[0], username, ip, since) {
        assert Remaining(rows, username, ip, since) == rest;
      } else {
        assert ([rows[0]] + rest)[1..] == rest;
      }
    }
  }

  lemma NoneClearedPrefix(qs: seq<Request>, key: Key, from: int, n: nat)
    requires NoneCleared(qs, key, from) && n <= |qs|
    ensures NoneCleared(qs[..n], key, from)
  {
    forall i, j | 0 <= i < j < n && OutcomeAt(qs[..n], i) == Rejected && OutcomeAt(qs[..n], j) == Accepted
                  && Counts(Written(qs[i]), key, from)
      ensures !Cleared(Written(qs[i]), qs[j].username, qs[j].ip, qs[j].written - LOCKOUT)
    {
      OutcomeOfPrefix(qs, n, i);
      OutcomeOfPrefix(qs, n, j);
    }
  }

  lemma SuccessKeepsCounts(qs: seq<Request>, key: Key, from: int)
    requires qs != [] && NoneCleared(qs, key, from) && OutcomeAt(qs, |qs| - 1) == Accepted
    ensures CountWindow(Rows(qs), key, from) == CountWindow(Rows(qs[..|qs| - 1]), key, from)
  {
    var last := |qs| - 1;
    var before, q := Rows(qs[..last]), qs[last];
    forall a | a in before && Counts(a, key, from) ensures !Cleared(a, q.username, q.ip, q.written - LOCKOUT) {
      var i := RowOrigin(qs[..last], a);
      OutcomeOfPrefix(qs, last, i);
    }
    RemainingCounts(before, q.username, q.ip, q.written - LOCKOUT, key, from);
  }

  /** Without such a login the stored rows are all the failures. */
  lemma {:induction false} FailuresStored(qs: seq<Request>, key: Key, from: int)
    requires NoneCleared(qs, key, from)
    ensures Failures(qs, key, from) == CountWindow(Rows(qs), key, from)
  {
    if qs != [] {
      var last := |qs| - 1;
      var before, q := Rows(qs[..last]), qs[last];
      NoneClearedPrefix(qs, key, from, last);
      FailuresStored(qs[..last], key, from);
      if OutcomeAt(qs, last) == Rejected {
        WindowAppend(before, Written(q), key, from);
      } else if OutcomeAt(qs, last) == Accepted {
        SuccessKeepsCounts(qs, key, from);
      }
    }
  }

  /** The number of rows that count and that a success clears. */
  function ClearedCount(rows: seq<Attempt>, username: string, ip: string, since: int, key: Key, from: int): nat {
    if rows == [] then 0
    else
      (if Cleared(rows[0], username, ip, since) && Counts(rows[0], key, from) then 1 else 0)
      + ClearedCount(rows[1..], username, ip, since, key, from)
  }

  /** The number of rows of `key` in the window that the accepted logins of the run have cleared. */
  function Clearings(qs: seq<Request>, key: Key, from: int): nat {
    if qs == [] then 0
    else
      var last := |qs| - 1;
      var q := qs[last];
      Clearings(qs[..last], key, from)
      + if OutcomeAt(qs, last) == Accepted then
          ClearedCount(Rows(qs[..last]), q.username, q.ip, q.written - LOCKOUT, key, from)
        else 0
  }

  lemma {:induction false} ClearedOrRemaining(rows: seq<Attempt>, username: string, ip: string, since: int,
                                              key: Key, from: int)
    ensures CountWindow(rows, key, from)
         == CountWindow(Remaining(rows, username, ip, since), key, from)
            + ClearedCount(rows, username, ip, since, key, from)
  {
    if rows != [] {
      var rest := Remaining(rows[1..], username, ip, since);
      ClearedOrRemaining(rows[1..], username, ip, since, key, from);
      if Cleared(rows[0], username, ip, since) {
        assert Remaining(rows, username, ip, since) == rest;
      } else {
        assert ([rows[0]] + rest)[1..] == rest;
      }
    }
  }

  /** The account of every run: the rejected logins of a window are its stored rows and those cleared. */
  lemma {:induction false} FailuresAccounted(qs: seq<Request>, key: Key, from: int)
    ensures Failures(qs, key, from) == CountWindow(Rows(qs), key, from) + Clearings(qs, key, from)
  {
    if qs != [] {
      var last := |qs| - 1;
      var before, q := Rows(qs[..last]), qs[last];
      FailuresAccounted(qs[..last], key, from);
      if OutcomeAt(qs, last) == Rejected {
        WindowAppend(before, Written(q), key, from);
      } else if OutcomeAt(qs, last) == Accepted {
        ClearedOrRemaining(before, q.username, q.ip, q.written - LOCKOUT, key, from);
      }
    }
  }

  /** So in every run at most five logins for one username, or from one address, are rejected in any
      600 s beyond those that accepted logins clear; and more than five are exactly when what is
      cleared exceeds the room the stored rows leave. */
  lemma {:induction false} FailuresWithin(qs: seq<Request>, key: Key, from: int)
    requires forall i :: 0 <= i < |qs| ==> qs[i].checked <= qs[i].written
    ensures Failures(qs, key, from) <= MAX_ATTEMPTS + Clearings(qs, key, from)
    ensures Failures(qs, key, from) > MAX_ATTEMPTS
       <==> Clearings(qs, key, from) > MAX_ATTEMPTS - CountWindow(Rows(qs), key, from)
  {
    RunBounded(qs);
    FailuresAccounted(qs, key, from);
  }

  lemma {:induction false} ClearedSome(rows: seq<Attempt>, a: Attempt, username: string, ip: string, since: int,
                                       key: Key, from: int)
    requires a in rows && Cleared(a, username, ip, since) && Counts(a, key, from)
    ensures ClearedCount(rows, username, ip, since, key, from) > 0
  {
    if rows[0] != a {
      ClearedSome(rows[1..], a, username, ip, since, key, from);
    }
  }

  lemma {:induction false} NotCleared(rows: seq<Attempt>, a: Attempt, username: string, ip: string, since: int)
    requires a in rows && !Cleared(a, username, ip, since)
    ensures a in Remaining(rows, username, ip, since)
  {
    if rows[0] != a {
      NotCleared(rows[1..], a, username, ip, since);
    }
  }

  lemma StaysUncleared(rows: seq<Attempt>, a: Attempt, username: string, ip: string, since: int,
                       key: Key, from: int)
    requires a in rows && Counts(a, key, from) && ClearedCount(rows, username, ip, since, key, from) == 0
    ensures a in Remaining(rows, username, ip, since)
  {
    if Cleared(a, username, ip, since) {
      ClearedSome(rows, a, username, ip, since, key, from);
    } else {
      NotCleared(rows, a, username, ip, since);
    }
  }

  /** As long as nothing that counts is cleared, a counting failure stays stored. */
  lemma {:induction false} StillStored(qs: seq<Request>, key: Key, from: int, i: nat)
    requires i < |qs| && OutcomeAt(qs, i) == Rejected && Counts(Written(qs[i]), key, from)
    requires Clearings(qs, key, from) == 0
    ensures Written(qs[i]) in Rows(qs)
  {
    var last := |qs| - 1;
    var before, q := Rows(qs[..last]), qs[last];
    if i < last {
      OutcomeOfPrefix(qs, last, i);
      StillStored(qs[..last], key, from, i);
      if OutcomeAt(qs, last) == Accepted {
        StaysUncleared(before, Written(qs[i]), q.username, q.ip, q.written - LOCKOUT, key, from);
      }
    }
  }

  lemma LastClears(qs: seq<Request>, key: Key, from: int, i: nat)
    requires i + 1 < |qs| && OutcomeAt(qs, i) == Rejected && OutcomeAt(qs, |qs| - 1) == Accepted
    requires Counts(Written(qs[i]), key, from)
    requires var q := qs[|qs| - 1]; Cleared(Written(qs[i]), q.username, q.ip, q.written - LOCKOUT)
    ensures Clearings(qs, key, from) > 0
  {
    var last := |qs| - 1;
    if Clearings(qs[..last], key, from) == 0 {
      OutcomeOfPrefix(qs, last, i);
      StillStored(qs[..last], key, from, i);
      var q := qs[last];
      ClearedSome(Rows(qs[..last]), Written(qs[i]), q.username, q.ip, q.written - LOCKOUT, key, from);
    }
  }

  lemma {:induction false} ClearsSome(qs: seq<Request>, key: Key, from: int, i: nat, j: nat)
    requires i < j < |qs| && OutcomeAt(qs, i) == Rejected && OutcomeAt(qs, j) == Accepted
    requires Counts(Written(qs[i]), key, from)
    requires Cleared(Written(qs[i]), qs[j].username, qs[j].ip, qs[j].written - LOCKOUT)
    ensures Clearings(qs, key, from) > 0
  {
    var last := |qs| - 1;
    if j == last {
      LastClears(qs, key, from, i);
    } else {
      OutcomeOfPrefix(qs, last, i);
      OutcomeOfPrefix(qs, last, j);
      ClearsSome(qs[..last], key, from, i, j);
    }
  }

  /** Nothing that counts is cleared if and only if no accepted login matches an earlier such failure. */
  lemma {:induction false} ClearingsNone(qs: seq<Request>, key: Key, from: int)
    ensures Clearings(qs, key, from) == 0 <==> NoneCleared(qs, key, from)
  {
    if NoneCleared(qs, key, from) {
      FailuresStored(qs, key, from);
      FailuresAccounted(qs, key, from);
    } else {
      var i, j :| && 0 <= i < j < |qs| && OutcomeAt(qs, i) == Rejected && OutcomeAt(qs, j) == Accepted
                  && Counts(Written(qs[i]), key, from)
                  && Cleared(Written(qs[i]), qs[j].username, qs[j].ip, qs[j].written - LOCKOUT);
      ClearsSome(qs, key, from, i, j);
    }
  }

  /** At most five logins for one username, or from one address, are rejected in any 600 s, unless
      an accepted login clears one of them. */
  lemma {:induction false} FailuresBounded(qs: seq<Request>, key: Key, from: int)
    requires forall i :: 0 <= i < |qs| ==> qs[i].checked <= qs[i].written
    requires NoneCleared(qs, key, from)
    ensures Failures(qs, key, from) <= MAX_ATTEMPTS
  {
    FailuresWithin(qs, key, from);
    ClearingsNone(qs, key, from);
  }

  /** Rounds of four failures and one success from the same address. */
  function Rounds(bad: Request, good: Request, m: nat): seq<Request> {
    if m == 0 then [] else Rounds(bad, good, m - 1) + [bad] + [bad] + [bad] + [bad] + [good]
  }

  function Copies(a: Attempt, k: nat): seq<Attempt> {
    if k == 0 then [] else Copies(a, k - 1) + [a]
  }

  lemma {:induction false} SinceAppend(rows: seq<Attempt>, a: Attempt, key: Key, since: int)
    ensures CountSince(rows + [a], key, since)
         == CountSince(rows, key, since) + if Has(a, key) && a.at >= since then 1 else 0
  {
    if rows == [] {
      assert [a][1..] == [];
    } else {
      assert (rows + [a])[1..] == rows[1..] + [a];
      SinceAppend(rows[1..], a, key, since);
    }
  }

  lemma {:induction false} CopiesCounted(a: Attempt, k: nat, key: Key, since: int)
    ensures CountSince(Copies(a, k), key, since) <= k
  {
    if k > 0 {
      CopiesCounted(a, k - 1, key, since);
      SinceAppend(Copies(a, k - 1), a, key, since);
    }
  }

  lemma RowsStep(qs: seq<Request>, q: Request)
    ensures Rows(qs + [q]) == Login(Rows(qs), q).0
  {
    assert (qs + [q])[..|qs|] == qs;
  }

  /** One more request of a run. */
  lemma RunStep(qs: seq<Request>, q: Request, key: Key, from: int)
    ensures Rows(qs + [q]) == Login(Rows(qs), q).0
    ensures Failures(qs + [q], key, from)
         == Failures(qs, key, from)
            + if Login(Rows(qs), q).1 == Rejected && Counts(Written(q), key, from) then 1 else 0
  {
    assert (qs + [q])[..|qs|] == qs;
  }

  lemma OneFailure(qs: seq<Request>, bad: Request, k: nat, key: Key, from: int)
    requires !bad.valid && k < 4 && Rows(qs) == Copies(Written(bad), k) && Counts(Written(bad), key, from)
    ensures Rows(qs + [bad]) == Copies(Written(bad), k + 1)
    ensures Failures(qs + [bad], key, from) == Failures(qs, key, from) + 1
  {
    RunStep(qs, bad, key, from);
    CopiesCounted(Written(bad), k, ByUsername(bad.username), bad.checked - LOCKOUT);
    CopiesCounted(Written(bad), k, ByIp(bad.ip), bad.checked - LOCKOUT);
  }

  lemma {:induction false} CopiesCleared(a: Attempt, k: nat, username: string, since: int)
    requires a.at >= since
    ensures Remaining(Copies(a, k), username, a.ip, since) == []
  {
    if k > 0 {
      CopiesCleared(a, k - 1, username, since);
      RemainingAppend(Copies(a, k - 1), a, username, since);
    }
  }

  lemma {:induction false} RemainingAppend(rows: seq<Attempt>, a: Attempt, username: string, since: int)
    requires a.at >= since
    ensures Remaining(rows + [a], username, a.ip, since) == Remaining(rows, username, a.ip, since)
  {
    if rows == [] {
      assert [a][1..] == [];
    } else {
      assert (rows + [a])[1..] == rows[1..] + [a];
      RemainingAppend(rows[1..], a, username, since);
    }
  }

  lemma OneSuccess(qs: seq<Request>, bad: Request, good: Request, key: Key, from: int)
    requires good.valid && good.ip == bad.ip && good.written <= bad.written + LOCKOUT
    requires Rows(qs) == Copies(Written(bad), 3 + 1)
    ensures Rows(qs + [good]) == [] && Failures(qs + [good], key, from) == Failures(qs, key, from)
  {
    RunStep(qs, good, key, from);
    var four := 3 + 1;
    CopiesCounted(Written(bad), four, ByUsername(good.username), good.checked - LOCKOUT);
    CopiesCounted(Written(bad), four, ByIp(good.ip), good.checked - LOCKOUT);
    CopiesCleared(Written(bad), four, good.username, good.written - LOCKOUT);
  }

  /** The condition cannot be dropped: alternating four failures with one success from the same
      address, of whatever user, gives as many failures as one likes for one username at one moment. */
  lemma {:induction false} FailuresUnbounded(victim: string, user: string, ip: string, t: int, m: nat)
    ensures var bad, good := Request(victim, ip, false, t, t), Request(user, ip, true, t, t);
            && Rows(Rounds(bad, good, m)) == []
            && Failures(Rounds(bad, good, m), ByUsername(victim), t) == 4 * m
  {
    var bad, good := Request(victim, ip, false, t, t), Request(user, ip, true, t, t);
    if m > 0 {
      FailuresUnbounded(victim, user, ip, t, m - 1);
      OneRound(Rounds(bad, good, m - 1), bad, good, ByUsername(victim), t);
    }
  }

  lemma OneRound(qs: seq<Request>, bad: Request, good: Request, key: Key, from: int)
    requires Rows(qs) == [] && !bad.valid && good.valid && good.ip == bad.ip
    requires Counts(Written(bad), key, from) && good.written <= bad.written + LOCKOUT
    ensures var after := qs + [bad] + [bad] + [bad] + [bad] + [good];
            Rows(after) == [] && Failures(after, key, from) == Failures(qs, key, from) + 4
  {
    OneFailure(qs, bad, 0, key, from);
    OneFailure(qs + [bad], bad, 1, key, from);
    OneFailure(qs + [bad] + [bad], bad, 2, key, from);
    OneFailure(qs + [bad] + [bad] + [bad], bad, 3, key, from);
    OneSuccess(qs + [bad] + [bad] + [bad] + [bad], bad, good, key, from);
  }

  // ---------------------------------------------------------------- what others do not change

  /** A success leaves exactly the rows that share neither its username nor its address, and the
      rows older than 600 s. */
  lemma {:induction false} SuccessLeaves(rows: seq<Attempt>, username: string, ip: string, since: int, a: Attempt)
    ensures a in Remaining(rows, username, ip, since)
       <==> a in rows && ((a.username != username && a.ip != ip) || a.at < since)
  {
    if rows != [] {
      SuccessLeaves(rows[1..], username, ip, since, a);
    }
  }

  /** A circle of usernames and addresses. */
  datatype Circle = Circle(users: set<string>, ips: set<string>)

  predicate Inside(g: Circle, q: Request) {
    q.username in g.users && q.ip in g.ips
  }

  predicate Outside(g: Circle, q: Request) {
    q.username !in g.users && q.ip !in g.ips
  }

  /** The requests of the circle, and the rows. */
  function Within(g: Circle, qs: seq<Request>): seq<Request> {
    if qs == [] then []
    else
      var last := |qs| - 1;
      Within(g, qs[..last]) + if Inside(g, qs[last]) then [qs[last]] else []
  }

  function RowsWithin(g: Circle, rows: seq<Attempt>): seq<Attempt> {
    if rows == [] then []
    else (if rows[0].username in g.users then [rows[0]] else []) + RowsWithin(g, rows[1..])
  }

  /** Every row is of one side. */
  ghost predicate Apart(g: Circle, rows: seq<Attempt>) {
    forall a :: a in rows ==> (a.username in g.users <==> a.ip in g.ips)
  }

  lemma {:induction false} RowsWithinAppend(g: Circle, rows: seq<Attempt>, a: Attempt)
    ensures RowsWithin(g, rows + [a]) == RowsWithin(g, rows) + if a.username in g.users then [a] else []
  {
    if rows == [] {
      assert [a][1..] == [];
    } else {
      assert (rows + [a])[1..] == rows[1..] + [a];
      RowsWithinAppend(g, rows[1..], a);
    }
  }

  /** Rows of the other side do not count. */
  lemma {:induction false} CountWithin(g: Circle, rows: seq<Attempt>, key: Key, since: int)
    requires Apart(g, rows)
    requires match key case ByUsername(u) => u in g.users case ByIp(ip) => ip in g.ips
    ensures CountSince(RowsWithin(g, rows), key, since) == CountSince(rows, key, since)
  {
    if rows != [] {
      assert rows[0] in rows;
      CountWithin(g, rows[1..], key, since);
      var rest := RowsWithin(g, rows[1..]);
      if rows[0].username in g.users {
        assert ([rows[0]] + rest)[1..] == rest;
      } else {
        assert RowsWithin(g, rows) == rest && !Has(rows[0], key);
      }
    }
  }

  /** A success of the circle clears rows of the circle only, */
  lemma {:induction false} ClearWithin(g: Circle, rows: seq<Attempt>, username: string, ip: string, since: int)
    requires Apart(g, rows) && username in g.users && ip in g.ips
    ensures RowsWithin(g, Remaining(rows, username, ip, since)) == Remaining(RowsWithin(g, rows), username, ip, since)
  {
    if rows != [] {
      assert rows[0] in rows;
      ClearWithin(g, rows[1..], username, ip, since);
      FirstCleared(g, rows, username, ip, since);
    }
  }

  lemma FirstCleared(g: Circle, rows: seq<Attempt>, username: string, ip: string, since: int)
    requires rows != []
    ensures var rest := Remaining(rows[1..], username, ip, since);
            RowsWithin(g, Remaining(rows, username, ip, since))
            == (if !Cleared(rows[0], username, ip, since) && rows[0].username in g.users then [rows[0]] else [])
               + RowsWithin(g, rest)
    ensures var within := RowsWithin(g, rows[1..]);
            Remaining(RowsWithin(g, rows), username, ip, since)
            == (if !Cleared(rows[0], username, ip, since) && rows[0].username in g.users then [rows[0]] else [])
               + Remaining(within, username, ip, since)
  {
    var rest, within := Remaining(rows[1..], username, ip, since), RowsWithin(g, rows[1..]);
    assert ([rows[0]] + rest)[1..] == rest && ([rows[0]] + within)[1..] == within;
    if Cleared(rows[0], username, ip, since) {
      assert Remaining(rows, username, ip, since) == rest;
    }
    if rows[0].username !in g.users {
      assert RowsWithin(g, rows) == within;
    }
  }

  /** and one of the other side clears none of them. */
  lemma {:induction false} ClearOutside(g: Circle, rows: seq<Attempt>, username: string, ip: string, since: int)
    requires Apart(g, rows) && username !in g.users && ip !in g.ips
    ensures RowsWithin(g, Remaining(rows, username, ip, since)) == RowsWithin(g, rows)
  {
    if rows != [] {
      assert rows[0] in rows;
      ClearOutside(g, rows[1..], username, ip, since);
      FirstCleared(g, rows, username, ip, since);
    }
  }

  ghost predicate Separate(g: Circle, qs: seq<Request>) {
    forall i :: 0 <= i < |qs| ==> Inside(g, qs[i]) || Outside(g, qs[i])
  }

  lemma {:induction false} RowsApart(g: Circle, qs: seq<Request>)
    requires Separate(g, qs)
    ensures Apart(g, Rows(qs))
  {
    forall a | a in Rows(qs) ensures a.username in g.users <==> a.ip in g.ips {
      var i := RowOrigin(qs, a);
    }
  }

  /** A login of the circle has the same outcome on the rows of the circle alone. */
  lemma LoginWithin(g: Circle, rows: seq<Attempt>, q: Request)
    requires Apart(g, rows) && Inside(g, q)
    ensures Login(RowsWithin(g, rows), q) == (RowsWithin(g, Login(rows, q).0), Login(rows, q).1)
  {
    CountWithin(g, rows, ByUsername(q.username), q.checked - LOCKOUT);
    CountWithin(g, rows, ByIp(q.ip), q.checked - LOCKOUT);
    RowsWithinAppend(g, rows, Written(q));
    ClearWithin(g, rows, q.username, q.ip, q.written - LOCKOUT);
  }

  lemma LoginOutside(g: Circle, rows: seq<Attempt>, q: Request)
    requires Apart(g, rows) && Outside(g, q)
    ensures RowsWithin(g, Login(rows, q).0) == RowsWithin(g, rows)
  {
    RowsWithinAppend(g, rows, Written(q));
    ClearOutside(g, rows, q.username, q.ip, q.written - LOCKOUT);
  }

  /** Non-interference: if every request of a run has both its username and its address in a circle
      or neither, then the rows of the circle are those of the run of its requests alone, */
  lemma {:induction false} CircleRows(g: Circle, qs: seq<Request>)
    requires Separate(g, qs)
    ensures RowsWithin(g, Rows(qs)) == Rows(Within(g, qs))
  {
    if qs != [] {
      var last := |qs| - 1;
      var before, q := qs[..last], qs[last];
      CircleRows(g, before);
      RowsApart(g, before);
      if Inside(g, q) {
        LoginWithin(g, Rows(before), q);
        assert Within(g, qs) == Within(g, before) + [q];
        RowsStep(Within(g, before), q);
      } else {
        LoginOutside(g, Rows(before), q);
        assert Within(g, qs) == Within(g, before);
      }
    }
  }

  /** and every login of the circle ends as it would without the others. */
  lemma {:induction false} CircleOutcome(g: Circle, qs: seq<Request>, i: nat)
    requires Separate(g, qs) && i < |qs| && Inside(g, qs[i])
    ensures OutcomeAt(qs, i) == Login(Rows(Within(g, qs[..i])), qs[i]).1
  {
    CircleRows(g, qs[..i]);
    RowsApart(g, qs[..i]);
    LoginWithin(g, Rows(qs[..i]), qs[i]);
  }

  // ---------------------------------------------------------------- lifting the lockout

  lemma {:induction false} NothingRecent(rows: seq<Attempt>, key: Key, since: int)
    requires forall a :: a in rows && Has(a, key) ==> a.at < since
    ensures CountSince(rows, key, since) == 0
  {
    if rows != [] {
      assert rows[0] in rows;
      NothingRecent(rows[1..], key, since);
    }
  }

  lemma {:induction false} RemainingUncleared(rows: seq<Attempt>, username: string, ip: string, since: int, a: Attempt)
    requires a in Remaining(rows, username, ip, since)
    ensures a in rows && !Cleared(a, username, ip, since)
  {
    if a !in Remaining(rows[1..], username, ip, since) {
      assert a == rows[0];
    } else {
      RemainingUncleared(rows[1..], username, ip, since, a);
    }
  }

  /** A successful login leaves nothing that counts against its username or its address, then or later. */
  lemma SuccessClears(rows: seq<Attempt>, q: Request, now: int)
    requires Login(rows, q).1 == Accepted && q.written <= now
    ensures AttemptCount(Login(rows, q).0, q.username, q.ip, now) == 0
  {
    var rest := Login(rows, q).0;
    forall a | a in rest ensures !Cleared(a, q.username, q.ip, q.written - LOCKOUT) {
      RemainingUncleared(rows, q.username, q.ip, q.written - LOCKOUT, a);
    }
    NothingRecent(rest, ByUsername(q.username), now - LOCKOUT);
    NothingRecent(rest, ByIp(q.ip), now - LOCKOUT);
  }

  /** A lockout lifts by itself once every attempt is more than 600 s old. */
  lemma LockoutLifts(rows: seq<Attempt>, q: Request)
    requires forall a :: a in rows ==> a.at + LOCKOUT < q.checked
    ensures Login(rows, q).1 != Throttled
  {
    NothingRecent(rows, ByUsername(q.username), q.checked - LOCKOUT);
    NothingRecent(rows, ByIp(q.ip), q.checked - LOCKOUT);
  }
}
