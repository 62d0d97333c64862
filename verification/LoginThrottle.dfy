/** The exponential login throttle (api/api_auth.py), shared by the login route and the
    current-password check of the security route.  Requests are sequential; time is the monotonic
    clock. */
module LoginThrottle {

  const FREE_ATTEMPTS := 5
  const BASE_SECONDS := 2
  const MAX_SECONDS := 300
  const ENTRY_TTL_SECONDS := 86400
  const MAX_EXPONENT := 9

  function Min(a: int, b: int): int {
    if a <= b then a else b
  }

  function Pow2(n: nat): nat {
    if n == 0 then 1 else 2 * Pow2(n - 1)
  }

  /** `_login_throttle_delay`: the exponent is capped before the power is taken. */
  function Delay(failCount: nat): int {
    var over := failCount - FREE_ATTEMPTS + 1;
    if over <= 0 then 0
    else Min(BASE_SECONDS * Pow2(Min(over - 1, MAX_EXPONENT)), MAX_SECONDS)
  }

  /** The doubling rule with no cap on the exponent. */
  function DoublingDelay(failCount: nat): int {
    if failCount < FREE_ATTEMPTS then 0 else Min(BASE_SECONDS * Pow2(failCount - FREE_ATTEMPTS), MAX_SECONDS)
  }

  lemma {:induction false} Pow2Grows(n: nat, m: nat)
    requires n <= m
    ensures Pow2(n) <= Pow2(m)
    decreases m
  {
    if n < m { Pow2Grows(n, m - 1); }
  }

  lemma Pow2OfNine()
    ensures Pow2(9) == 512
  {
    assert Pow2(3) == 8;
    assert Pow2(6) == 64;
  }

  lemma CappedExponentIsInvisible(failCount: nat)
    ensures Delay(failCount) == DoublingDelay(failCount)
    ensures 0 <= Delay(failCount) <= MAX_SECONDS
  {
    Pow2OfNine();
    if failCount > 14 { Pow2Grows(9, failCount - FREE_ATTEMPTS); }
  }

  // ------------------------------------------------------------------ the table and its requests

  datatype Entry = Entry(failCount: nat, lockedUntil: real, lastSeen: real)
  type Table = map<string, Entry>

  datatype Attempt = Attempt(client: string, now: real, passwordOk: bool)
  datatype Outcome = Throttled(retryAfter: int) | Accepted | Failed

  predicate Stale(entry: Entry, now: real) {
    now - entry.lastSeen > ENTRY_TTL_SECONDS as real
  }

  function Prune(table: Table, now: real): Table {
    map client | client in table && !Stale(table[client], now) :: table[client]
  }

  function LockedUntil(table: Table, client: string): real {
    if client in table then table[client].lockedUntil else 0.0
  }

  function FailCount(table: Table, client: string): nat {
    if client in table then table[client].failCount else 0
  }

  function Answer(table: Table, a: Attempt): Outcome {
    var until := LockedUntil(Prune(table, a.now), a.client);
    if a.now < until then Throttled((until - a.now).Floor + 1)
    else if a.passwordOk then Accepted
    else Failed
  }

  function Step(table: Table, a: Attempt): Table {
    var pruned := Prune(table, a.now);
    match Answer(table, a)
    case Throttled(_) => pruned
    case Accepted => pruned - {a.client}
    case Failed =>
      var fails := FailCount(pruned, a.client) + 1;
      pruned[a.client := Entry(fails, a.now + Delay(fails) as real, a.now)]
  }

  class Throttle {
    var table: Table

    constructor ()
      ensures table == map[]
    {
      table := map[];
    }

    method TryPassword(a: Attempt) returns (outcome: Outcome)
      modifies this
      ensures outcome == Answer(old(table), a)
      ensures table == Step(old(table), a)
    {
      table := map client | client in table
          && a.now - table[client].lastSeen <= ENTRY_TTL_SECONDS as real :: table[client];
      assert table == Prune(old(table), a.now);
      var lockedUntil := 0.0;
      if a.client in table {
        lockedUntil := table[a.client].lockedUntil;
      }
      if a.now < lockedUntil {
        return Throttled((lockedUntil - a.now).Floor + 1);
      }
      if a.passwordOk {
        table := table - {a.client};
        return Accepted;
      }
      var fails := 1;
      if a.client in table {
        fails := table[a.client].failCount + 1;
      }
      table := table[a.client := Entry(fails, a.now + Delay(fails) as real, a.now)];
      return Failed;
    }
  }

  /** Requests arrive in clock order, no earlier than `clock`. */
  predicate InOrder(clock: real, attempts: seq<Attempt>) {
    && (forall i :: 0 <= i < |attempts| ==> clock <= attempts[i].now)
    && (forall i, j :: 0 <= i < j < |attempts| ==> attempts[i].now <= attempts[j].now)
  }

  function Run(table: Table, attempts: seq<Attempt>): Table
    decreases |attempts|
  {
    if attempts == [] then table else Run(Step(table, attempts[0]), attempts[1..])
  }

  /** The times of one client's failed password checks. */
  function FailureTimes(table: Table, attempts: seq<Attempt>, client: string): seq<real>
    decreases |attempts|
  {
    if attempts == [] then []
    else
      var rest := FailureTimes(Step(table, attempts[0]), attempts[1..], client);
      if attempts[0].client == client && Answer(table, attempts[0]).Failed? then [attempts[0].now] + rest else rest
  }

  /** The client never got in. */
  predicate NeverAccepted(table: Table, attempts: seq<Attempt>, client: string)
    decreases |attempts|
  {
    attempts == [] ||
    (&& !(attempts[0].client == client && Answer(table, attempts[0]).Accepted?)
     && NeverAccepted(Step(table, attempts[0]), attempts[1..], client))
  }

  // ------------------------------------------------------------------ live lockouts survive pruning

  predicate WellStamped(table: Table) {
    forall client :: client in table ==>
      table[client].failCount >= 1
          && table[client].lockedUntil == table[client].lastSeen + Delay(table[client].failCount) as real
  }

  lemma StepKeepsWellStamped(table: Table, a: Attempt)
    requires WellStamped(table)
    ensures WellStamped(Step(table, a))
  {
  }

  lemma {:induction false} RunKeepsWellStamped(table: Table, attempts: seq<Attempt>)
    requires WellStamped(table)
    ensures WellStamped(Run(table, attempts))
    decreases |attempts|
  {
    if attempts != [] {
      StepKeepsWellStamped(table, attempts[0]);
      RunKeepsWellStamped(Step(table, attempts[0]), attempts[1..]);
    }
  }

  /** In every reachable table, sweeping stale entries never lifts a lockout that still runs. */
  lemma PruningKeepsLiveLockouts(attempts: seq<Attempt>, now: real, client: string)
    requires now >= 0.0
    ensures var table := Run(map[], attempts);
            now < LockedUntil(table, client) <==> now < LockedUntil(Prune(table, now), client)
  {
    RunKeepsWellStamped(map[], attempts);
    var table := Run(map[], attempts);
    if client in table { CappedExponentIsInvisible(table[client].failCount); }
  }

  /** The advertised wait is long enough, and less than a second too long. */
  lemma RetryAfterIsTight(table: Table, a: Attempt, later: real, passwordOk: bool)
    requires Answer(table, a).Throttled? && 0.0 <= a.now <= later
    ensures var r := Answer(table, a).retryAfter as real;
            && (later >= a.now + r ==> !Answer(Step(table, a), Attempt(a.client, later, passwordOk)).Throttled?)
            && a.now + r - 1.0 <= LockedUntil(table, a.client) < a.now + r
  {
    var until := LockedUntil(Prune(table, a.now), a.client);
    assert a.client in Prune(table, a.now);
    assert Step(table, a) == Prune(table, a.now);
  }

  // ------------------------------------------------------------------ how slowly guesses go through

  /** Least time between the first and the n-th of n failures in one unbroken lockout series. */
  function SeriesTime(n: nat): int {
    if n <= 1 then 0 else SeriesTime(n - 1) + Delay(n - 1)
  }

  lemma SeriesTimeOfThirteen()
    ensures SeriesTime(13) == 510
    ensures forall n :: 1 <= n <= 13 ==> SeriesTime(n) >= 300 * n - 3390
  {
    assert Pow2(3) == 8 && Pow2(7) == 128;
    assert SeriesTime(5) == 0 && SeriesTime(6) == 2 && SeriesTime(7) == 6;
    assert SeriesTime(8) == 14 && SeriesTime(9) == 30 && SeriesTime(10) == 62;
    assert SeriesTime(11) == 126 && SeriesTime(12) == 254;
    assert SeriesTime(2) == 0 && SeriesTime(3) == 0 && SeriesTime(4) == 0;
  }

  lemma {:induction false} SeriesTimeIsSteep(n: nat)
    requires n >= 1
    ensures SeriesTime(n) >= 300 * n - 3390
  {
    SeriesTimeOfThirteen();
    if n > 13 {
      SeriesTimeIsSteep(n - 1);
      Pow2OfNine();
      Pow2Grows(8, Min(n - 6, 9));
      assert Pow2(9) == 2 * Pow2(8);
    }
  }

  function GuessFloor(n: int): real {
    300.0 * n as real - 3390.0
  }

  /** The failures after the n-th, counted from the first of them all. */
  predicate SpacedFrom(first: real, n: nat, times: seq<real>) {
    forall k :: 0 <= k < |times| ==> times[k] - first >= GuessFloor(n + k + 1)
  }

  /** What a run has established about `client` after `n` failures, the first at `first` and the
      newest at `last`: within a series the delays add up, and starting a new series (the entry was
      swept) has cost a whole day. */
  predicate Paced(table: Table, clock: real, client: string, first: real, last: real, n: nat) {
    if client in table then
      && WellStamped(table)
      && table[client].lastSeen == last
      && table[client].failCount <= n
      && last - first >= SeriesTime(table[client].failCount) as real + 300.0 * (n - table[client].failCount) as real
    else
      last - first >= GuessFloor(n) && clock > last + ENTRY_TTL_SECONDS as real
  }

  lemma PacedStep(table: Table, clock: real, client: string, first: real, last: real, n: nat, a: Attempt)
    requires n >= 1 && clock <= a.now && WellStamped(table) && Paced(table, clock, client, first, last, n)
    requires !(a.client == client && Answer(table, a).Accepted?)
    ensures WellStamped(Step(table, a))
    ensures if a.client == client && Answer(table, a).Failed?
            then a.now - first >= GuessFloor(n + 1) && Paced(Step(table, a), a.now, client, first, a.now, n + 1)
            else Paced(Step(table, a), a.now, client, first, last, n)
  {
    StepKeepsWellStamped(table, a);
    if client in table {
      var fails := table[client].failCount;
      SeriesTimeIsSteep(fails);
      SeriesTimeIsSteep(fails + 1);
      assert SeriesTime(fails + 1) == SeriesTime(fails) + Delay(fails);
    }
    assert SeriesTime(1) == 0;
  }

  lemma {:induction false} PacedRun(
    table: Table, clock: real, attempts: seq<Attempt>, client: string, first: real, last: real, n: nat)
    requires n >= 1 && WellStamped(table) && InOrder(clock, attempts) && Paced(table, clock, client, first, last, n)
    requires NeverAccepted(table, attempts, client)
    ensures SpacedFrom(first, n, FailureTimes(table, attempts, client))
    decreases |attempts|
  {
    if attempts != [] {
      var a := attempts[0];
      PacedStep(table, clock, client, first, last, n, a);
      if a.client == client && Answer(table, a).Failed? {
        PacedRun(Step(table, a), a.now, attempts[1..], client, first, a.now, n + 1);
        var times, rest := FailureTimes(table, attempts, client), FailureTimes(Step(table, a), attempts[1..], client);
        assert times == [a.now] + rest;
        forall k | 0 <= k < |times| ensures times[k] - first >= GuessFloor(n + k + 1) {
          assert k > 0 ==> times[k] == rest[k - 1];
        }
      } else {
        PacedRun(Step(table, a), a.now, attempts[1..], client, first, last, n);
      }
    }
  }

  /** For every run in which the client never gets in (other clients may do anything, and entries
      may be swept at any point), its n-th failed password check comes at least
      510 + 300 * (n - 13) seconds after the first. */
  lemma {:induction false} GuessingRateIsBounded(table: Table, clock: real, attempts: seq<Attempt>, client: string,
      n: nat)
    requires WellStamped(table) && client !in table && InOrder(clock, attempts)
    requires NeverAccepted(table, attempts, client)
    requires 1 <= n <= |FailureTimes(table, attempts, client)|
    ensures var times := FailureTimes(table, attempts, client);
            times[n - 1] - times[0] >= 510.0 + 300.0 * (n - 13) as real
    decreases |attempts|
  {
    var a := attempts[0];
    var t := Step(table, a);
    StepKeepsWellStamped(table, a);
    if a.client == client && Answer(table, a).Failed? {
      assert SeriesTime(1) == 0;
      PacedRun(t, a.now, attempts[1..], client, a.now, a.now, 1);
      var times, rest := FailureTimes(table, attempts, client), FailureTimes(t, attempts[1..], client);
      assert times == [a.now] + rest;
      assert n > 1 ==> times[n - 1] == rest[n - 2] && times[n - 1] - times[0] >= GuessFloor(1 + (n - 2) + 1);
    } else {
      GuessingRateIsBounded(t, a.now, attempts[1..], client, n);
    }
  }
}
