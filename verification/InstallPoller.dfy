/** The poller that follows an install to its end (panel/main.py:839-897). */
module InstallPoller {

  const ATTEMPTS := 90

  /** What one attempt finds: a row missing, an error, or the daemon's answer. */
  datatype Answer =
    | RowGone
    | Failed
    | Status(installing: bool, present: bool, running: bool, status: string)

  /** Attempt `i` (counted from 0) settles the install. */
  predicate Decisive(i: nat, a: Answer) {
    && a.Status? && !a.installing
    && (if a.present then a.running || a.status == "exited" || a.status == "dead" else i > 5)
  }

  function Verdict(a: Answer): string
    requires a.Status?
  {
    if !a.present then "install_failed" else if a.running then "running" else "stopped"
  }

  /** The first attempt from `i` on that ends the loop, or ATTEMPTS. */
  ghost predicate EndsAt(answers: seq<Answer>, k: nat)
    requires |answers| == ATTEMPTS
  {
    && k <= ATTEMPTS
    && (forall j :: 0 <= j < k ==> answers[j] != RowGone && !Decisive(j, answers[j]))
    && (k < ATTEMPTS ==> answers[k] == RowGone || Decisive(k, answers[k]))
  }

  lemma {:induction false} EndFrom(answers: seq<Answer>, k: nat) returns (end: nat)
    requires |answers| == ATTEMPTS && k <= ATTEMPTS
    requires forall j :: 0 <= j < k ==> answers[j] != RowGone && !Decisive(j, answers[j])
    ensures EndsAt(answers, end)
    decreases ATTEMPTS - k
  {
    if k == ATTEMPTS || answers[k] == RowGone || Decisive(k, answers[k]) {
      end := k;
    } else {
      end := EndFrom(answers, k + 1);
    }
  }

  lemma EndExists(answers: seq<Answer>)
    requires |answers| == ATTEMPTS
    ensures exists k: nat :: EndsAt(answers, k)
  {
    var k := EndFrom(answers, 0);
  }

  /** The attempt at which the loop ends. */
  ghost function End(answers: seq<Answer>): (k: nat)
    requires |answers| == ATTEMPTS
    ensures EndsAt(answers, k)
  {
    EndExists(answers);
    var k: nat :| EndsAt(answers, k);
    k
  }

  class ServerRow {
    var status: string
    var installed: bool

    /** `_poll_install_complete`, when no one else writes the row.  `survives` says whether the row
        is still there after the last attempt.  It returns the number of attempts made. */
    method Poll(answers: seq<Answer>, survives: bool) returns (made: nat)
      requires |answers| == ATTEMPTS
      modifies this
      ensures made == if End(answers) < ATTEMPTS then End(answers) + 1 else ATTEMPTS
      ensures var k := End(answers);
              && (k < ATTEMPTS && answers[k] == RowGone ==> status == old(status) && installed == old(installed))
              && (k < ATTEMPTS && Decisive(k, answers[k]) ==> installed && status == Verdict(answers[k]))
      ensures End(answers) == ATTEMPTS ==>
                if survives then
                  installed && status == if old(status) == "installing" then "install_failed" else old(status)
                else status == old(status) && installed == old(installed)
    {
      ghost var end := End(answers);
      for i := 0 to ATTEMPTS
        invariant i <= end
        invariant forall j :: 0 <= j < i ==> answers[j] != RowGone && !Decisive(j, answers[j])
        invariant status == old(status) && installed == old(installed)
      {
        var install := answers[i];
        if install.RowGone? {
          return i + 1;
        }
        if install.Status? && !install.installing {
          if !install.present {
            if i > 5 {
              status, installed := "install_failed", true;
              return i + 1;
            }
          } else if install.running {
            status, installed := "running", true;
            return i + 1;
          } else if install.status == "exited" || install.status == "dead" {
            status, installed := "stopped", true;
            return i + 1;
          }
        }
      }
      if survives {
        installed := true;
        if status == "installing" {
          status := "install_failed";
        }
      }
      return ATTEMPTS;
    }
  }

  /** While the answers say that the install is still going on, or fail, nothing is settled. */
  lemma InstallingWaits(answers: seq<Answer>, k: nat)
    requires |answers| == ATTEMPTS && k <= ATTEMPTS
    requires forall j :: 0 <= j < k ==> answers[j] == Failed || (answers[j].Status? && answers[j].installing)
    ensures k <= End(answers)
  {
  }

  /** A finished install is noticed at once: a container that runs, or has exited or died. */
  lemma FinishedEnds(answers: seq<Answer>, i: nat)
    requires |answers| == ATTEMPTS && i < ATTEMPTS && answers[i].Status? && !answers[i].installing && answers[i].present
    requires answers[i].running || answers[i].status == "exited" || answers[i].status == "dead"
    ensures End(answers) <= i
  {
    assert Decisive(i, answers[i]);
  }

  /** A missing container is waited for until the seventh attempt, and not longer. */
  lemma MissingEnds(answers: seq<Answer>, i: nat)
    requires |answers| == ATTEMPTS && 6 <= i < ATTEMPTS
    requires answers[i].Status? && !answers[i].installing && !answers[i].present
    ensures End(answers) <= i
  {
    assert Decisive(i, answers[i]);
  }

  /** A container that is there but neither runs nor has ended is waited for. */
  lemma StartingWaits(answers: seq<Answer>, k: nat)
    requires |answers| == ATTEMPTS && k <= ATTEMPTS
    requires forall j :: 0 <= j < k ==>
               && answers[j].Status? && answers[j].present && !answers[j].running
               && (answers[j].status == "created" || answers[j].status == "restarting")
    ensures k <= End(answers)
  {
  }

  /** When the rows survive, the poll ends within 90 attempts with the server installed and out of
      "installing"; "running" or "stopped", if it was not there before, is what the first decisive
      answer says; and a missing container is declared failed at the seventh attempt at the earliest. */
  method PollSettles(row: ServerRow, answers: seq<Answer>) returns (made: nat)
    requires |answers| == ATTEMPTS && forall i :: 0 <= i < ATTEMPTS ==> answers[i] != RowGone
    modifies row
    ensures made <= ATTEMPTS && row.installed && row.status != "installing"
    ensures (exists i :: 0 <= i < ATTEMPTS && Decisive(i, answers[i])) ==>
              && 1 <= made && Decisive(made - 1, answers[made - 1]) && row.status == Verdict(answers[made - 1])
              && forall j :: 0 <= j < made - 1 ==> !Decisive(j, answers[j])
    ensures row.status == "install_failed" && old(row.status) != "install_failed" ==> made >= 7
    ensures row.status == "running" && old(row.status) != "running" ==>
              made >= 1 && answers[made - 1].Status? && answers[made - 1].running
    ensures row.status == "stopped" && old(row.status) != "stopped" ==>
              made >= 1 && answers[made - 1].Status? && answers[made - 1].present && !answers[made - 1].running
              && (answers[made - 1].status == "exited" || answers[made - 1].status == "dead")
    ensures row.status == "install_failed" && made < ATTEMPTS ==>
              made >= 7 && answers[made - 1].Status? && !answers[made - 1].installing && !answers[made - 1].present
  {
    made := row.Poll(answers, true);
  }
}
