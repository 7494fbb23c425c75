/**
 The per-account login lockout: a counter and the time of the last failure, against the history of
 attempts they summarise.
 */
module LoginLockout {
  import opened Options
  import opened Sequences

  const LOGIN_LOCKOUT_ATTEMPTS := 10
  const LOGIN_FAILURE_WINDOW_SECONDS := 900.0

  /** The two columns of the user row. */
  datatype Counter = Counter(attempts: nat, lastFailed: Option<real>)

  /** One login request: when, and whether the password would be right. */
  datatype Attempt = Attempt(now: real, correct: bool)

  predicate LoginLocked(c: Counter, now: real) {
    && c.attempts >= LOGIN_LOCKOUT_ATTEMPTS
    && c.lastFailed.Some?
    && now - c.lastFailed.value < LOGIN_FAILURE_WINDOW_SECONDS
  }

  function AfterFailure(c: Counter, now: real): Counter {
    var restart := c.lastFailed.None? || c.lastFailed.value < now - LOGIN_FAILURE_WINDOW_SECONDS;
    Counter(if restart then 1 else c.attempts + 1, Some(now))
  }

  /** A locked account's attempts are neither checked nor recorded. */
  function AfterAttempt(c: Counter, a: Attempt): Counter {
    if LoginLocked(c, a.now) then c
    else if a.correct then c.(attempts := 0)
    else AfterFailure(c, a.now)
  }

  /** The last `k` failures follow each other within the window. */
  ghost predicate ChainOf(failures: seq<real>, k: nat) {
    && k <= |failures|
    && forall n :: |failures| - k < n < |failures| ==> failures[n] - failures[n - 1] <= 900.0
  }

  /** The counter is the length of the longest suffix of the failures whose consecutive gaps are at most the
      window, and remembers the last of them. */
  ghost predicate Counts(c: Counter, failures: seq<real>) {
    && (forall k: nat :: ChainOf(failures, k) <==> k <= c.attempts)
    && (failures != [] ==> c.lastFailed == Some(failures[|failures| - 1]))
    && (failures == [] <==> c.attempts == 0)
  }

  class User {
    var failedLoginAttempts: nat
    var lastFailedLoginAt: Option<real>

    function Row(): Counter
      reads this
    {
      Counter(failedLoginAttempts, lastFailedLoginAt)
    }

    constructor ()
      ensures Row() == Counter(0, None)
    {
      failedLoginAttempts, lastFailedLoginAt := 0, None;
    }

    method RecordLoginSuccess()
      modifies this
      ensures Row() == old(Row()).(attempts := 0)
    {
      failedLoginAttempts := 0;
    }

    method RecordLoginFailure(now: real)
      modifies this
      ensures Row() == AfterFailure(old(Row()), now)
      ensures forall failures :: Counts(old(Row()), failures) ==> Counts(Row(), failures + [now])
    {
      ghost var before := Row();
      var windowStart := now - LOGIN_FAILURE_WINDOW_SECONDS;
      if lastFailedLoginAt.None? || lastFailedLoginAt.value < windowStart {
        failedLoginAttempts := 1;
      } else {
        failedLoginAttempts := failedLoginAttempts + 1;
      }
      lastFailedLoginAt := Some(now);
      forall failures | Counts(before, failures)
        ensures Counts(Row(), failures + [now])
      {
        OneMoreFailureCounts(before, failures, now);
      }
    }

    method Login(a: Attempt) returns (ok: bool)
      modifies this
      ensures Row() == AfterAttempt(old(Row()), a)
      ensures ok <==> a.correct && !LoginLocked(old(Row()), a.now)
      ensures ok ==> failedLoginAttempts == 0 && lastFailedLoginAt == old(lastFailedLoginAt)
      ensures LoginLocked(old(Row()), a.now) ==> Row() == old(Row())
      ensures !ok && !LoginLocked(old(Row()), a.now) ==> failedLoginAttempts > 0 && lastFailedLoginAt == Some(a.now)
    {
      if LoginLocked(Row(), a.now) {
        return false;
      }
      if a.correct {
        RecordLoginSuccess();
      } else {
        RecordLoginFailure(a.now);
      }
      return a.correct;
    }
  }

  // ----- what the counter means -----

  /** What the attempts leave, and the failure times recorded since the last success. */
  datatype Trace = Trace(counter: Counter, failures: seq<real>)

  function Replay(history: seq<Attempt>): Trace {
    if history == [] then Trace(Counter(0, None), [])
    else
      var t := Replay(Front(history));
      var a := history[|history| - 1];
      Trace(AfterAttempt(t.counter, a),
            if LoginLocked(t.counter, a.now) then t.failures
            else if a.correct then []
            else t.failures + [a.now])
  }

  /** Over every run the counter is the length of the longest suffix of the failures recorded since the last
      success whose consecutive gaps are at most the window. */
  lemma {:induction false} CounterIsLongestChain(history: seq<Attempt>)
    ensures var t := Replay(history); Counts(t.counter, t.failures)
  {
    if history != [] {
      var t, a := Replay(Front(history)), history[|history| - 1];
      CounterIsLongestChain(Front(history));
      if !LoginLocked(t.counter, a.now) && !a.correct {
        OneMoreFailureCounts(t.counter, t.failures, a.now);
      }
    }
  }

  /** Recording a failure keeps the counter right. */
  lemma OneMoreFailureCounts(c: Counter, failures: seq<real>, now: real)
    requires Counts(c, failures)
    ensures Counts(AfterFailure(c, now), failures + [now])
  {
    forall k: nat
      ensures ChainOf(failures + [now], k) <==> k <= AfterFailure(c, now).attempts
    {
      if k > 0 {
        LongerChain(failures, now, k);
      }
    }
  }

  /** One more failure continues the chains it follows closely, and starts over otherwise. */
  lemma LongerChain(failures: seq<real>, now: real, k: nat)
    requires k > 0
    ensures ChainOf(failures + [now], k) <==>
            k == 1 || (ChainOf(failures, k - 1) && failures != [] && now - failures[|failures| - 1] <= LOGIN_FAILURE_WINDOW_SECONDS)
  {
    var more := failures + [now];
    assert more[|failures|] == now;
    assert forall n :: 0 <= n < |failures| ==> more[n] == failures[n];
    if ChainOf(more, k) && k > 1 {
      assert more[|failures|] - more[|failures| - 1] <= LOGIN_FAILURE_WINDOW_SECONDS;
      forall n | |failures| - (k - 1) < n < |failures|
        ensures failures[n] - failures[n - 1] <= 900.0
      {
        assert more[n] - more[n - 1] <= 900.0;
      }
    }
  }

  /** An account is locked exactly when the last ten failures since its last success chain within the window
      and the last of them is under a window old. */
  lemma LockedIff(history: seq<Attempt>, now: real)
    ensures var t := Replay(history);
            LoginLocked(t.counter, now) <==>
            ChainOf(t.failures, 10) && now - t.failures[|t.failures| - 1] < 900.0
  {
    CounterIsLongestChain(history);
    var t := Replay(history);
    assert ChainOf(t.failures, LOGIN_LOCKOUT_ATTEMPTS) <==> LOGIN_LOCKOUT_ATTEMPTS <= t.counter.attempts;
  }

  /** Attempts made while the account is locked, however many and whatever the password, change nothing: the
      lockout ends a window after the last recorded failure. */
  lemma {:induction false} LockoutIsNotExtended(history: seq<Attempt>, during: seq<Attempt>, now: real)
    requires forall n :: 0 <= n < |during| ==> LoginLocked(Replay(history).counter, during[n].now)
    ensures Replay(history + during) == Replay(history)
    ensures Replay(history).failures != [] && now - Replay(history).failures[|Replay(history).failures| - 1] >= 900.0
            ==> !LoginLocked(Replay(history + during).counter, now)
  {
    CounterIsLongestChain(history);
    if during == [] {
      assert history + during == history;
    } else {
      LockoutIsNotExtended(history, during[..|during| - 1], now);
      assert Front(history + during) == history + during[..|during| - 1];
    }
  }
}
