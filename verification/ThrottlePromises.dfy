/** What the login throttle promises a client, told from the requests alone. */
module ThrottlePromises {
  import opened Options
  import opened LoginThrottle

  /** Seconds to wait after the n-th failure in a row. */
  function Wait(n: nat): int {
    if n <= 4 then 0
    else if n == 5 then 2
    else if n == 6 then 4
    else if n == 7 then 8
    else if n == 8 then 16
    else if n == 9 then 32
    else if n == 10 then 64
    else if n == 11 then 128
    else if n == 12 then 256
    else 300
  }

  lemma DelayIsTheWait(n: nat)
    ensures Delay(n) == Wait(n)
  {
    assert Pow2(3) == 8 && Pow2(5) == 32 && Pow2(7) == 128;
    if n >= 13 {
      assert Pow2(8) == 256;
      Pow2Grows(8, Min(n - 5, 9));
    }
  }

  /** A client's failures in a row: how many, and when the newest was. */
  datatype Streak = Streak(fails: nat, last: real)

  /** The client's failures in a row as its own requests tell them.  A request within the wait is not
      counted, a right password ends the streak, and so does a day without a counted failure. */
  function StreakOf(attempts: seq<Attempt>, client: string): Option<Streak> {
    if attempts == [] then None
    else
      var before, a := StreakOf(attempts[..|attempts| - 1], client), attempts[|attempts| - 1];
      if a.client != client then before
      else
        match Verdict(before, a)
        case Throttled(_) => before
        case Accepted => None
        case Failed => Some(Streak(if before.Some? && a.now - before.value.last <= 86400.0
                                   then before.value.fails + 1 else 1, a.now))
  }

  /** How a request is answered after such a streak. */
  function Verdict(streak: Option<Streak>, a: Attempt): Outcome {
    if streak.Some? && a.now < streak.value.last + Wait(streak.value.fails) as real
    then Throttled((streak.value.last + Wait(streak.value.fails) as real - a.now).Floor + 1)
    else if a.passwordOk then Accepted
    else Failed
  }

  /** The table says of the client what its streak says; a swept entry is a streak more than a day old. */
  ghost predicate Agrees(table: Table, clock: real, client: string, streak: Option<Streak>) {
    if client in table then
      && streak == Some(Streak(table[client].failCount, table[client].lastSeen))
      && table[client].lockedUntil == table[client].lastSeen + Wait(table[client].failCount) as real
    else
      streak.Some? ==> clock - streak.value.last > 86400.0
  }

  lemma SameAnswer(table: Table, clock: real, streak: Option<Streak>, a: Attempt)
    requires clock <= a.now && 0.0 <= a.now && Agrees(table, clock, a.client, streak)
    ensures Answer(table, a) == Verdict(streak, a)
  {
  }

  lemma AgreesStep(table: Table, clock: real, client: string, attempts: seq<Attempt>, a: Attempt)
    requires clock <= a.now && 0.0 <= a.now && Agrees(table, clock, client, StreakOf(attempts, client))
    ensures Agrees(Step(table, a), a.now, client, StreakOf(attempts + [a], client))
  {
    var before := StreakOf(attempts, client);
    assert (attempts + [a])[..|attempts|] == attempts;
    if a.client == client {
      SameAnswer(table, clock, before, a);
      DelayIsTheWait(FailCount(Prune(table, a.now), client) + 1);
    }
  }

  lemma {:induction false} RunOneMore(table: Table, attempts: seq<Attempt>, a: Attempt)
    ensures Run(table, attempts + [a]) == Step(Run(table, attempts), a)
    decreases |attempts|
  {
    if attempts == [] {
      assert attempts + [a] == [a] && [a][1..] == [];
    } else {
      assert (attempts + [a])[1..] == attempts[1..] + [a];
      RunOneMore(Step(table, attempts[0]), attempts[1..], a);
    }
  }

  lemma {:induction false} AgreesRun(attempts: seq<Attempt>, client: string)
    requires InOrder(0.0, attempts)
    ensures Agrees(Run(map[], attempts), if attempts == [] then 0.0 else attempts[|attempts| - 1].now, client,
                   StreakOf(attempts, client))
  {
    if attempts != [] {
      var front, a := attempts[..|attempts| - 1], attempts[|attempts| - 1];
      AgreesRun(front, client);
      assert front + [a] == attempts;
      RunOneMore(map[], front, a);
      AgreesStep(Run(map[], front), if front == [] then 0.0 else front[|front| - 1].now, client, front, a);
    }
  }

  /** In every run every request is answered by the client's own streak alone: sweeping old entries and the
      requests of others change no answer. */
  lemma AnswerIsTheVerdict(attempts: seq<Attempt>, a: Attempt)
    requires InOrder(0.0, attempts + [a])
    ensures Answer(Run(map[], attempts), a) == Verdict(StreakOf(attempts, a.client), a)
  {
    assert (attempts + [a])[|attempts|] == a;
    assert forall i :: 0 <= i < |attempts| ==> (attempts + [a])[i] == attempts[i];
    AgreesRun(attempts, a.client);
    SameAnswer(Run(map[], attempts), if attempts == [] then 0.0 else attempts[|attempts| - 1].now,
               StreakOf(attempts, a.client), a);
  }

  /** A right password that is looked at clears the count: the next five wrong ones are free again. */
  lemma SuccessClearsTheCount(attempts: seq<Attempt>, a: Attempt, later: Attempt)
    requires InOrder(0.0, attempts + [a, later]) && later.client == a.client
    requires a.passwordOk && !Answer(Run(map[], attempts), a).Throttled?
    ensures StreakOf(attempts + [a], a.client).None?
    ensures !Answer(Run(map[], attempts + [a]), later).Throttled?
  {
    assert (attempts + [a, later])[|attempts|] == a;
    assert forall i :: 0 <= i < |attempts| + 1 ==> (attempts + [a])[i] == (attempts + [a, later])[i];
    assert attempts + [a, later] == (attempts + [a]) + [later];
    AnswerIsTheVerdict(attempts, a);
    AnswerIsTheVerdict(attempts + [a], later);
    assert (attempts + [a])[..|attempts|] == attempts;
  }
}
