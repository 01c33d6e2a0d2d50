/** The passphrase lockout (Lockout and AccessControl._check in src/elk_programmer/security.py).
    Times are real seconds; what the passphrase store answers is part of each attempt. */
module Lockout {
  const LOCKOUT_FAILURES: nat := 5
  const LOCKOUT_SECONDS: real := 900.0

  datatype State = State(failures: nat, until: real)

  /** The store has no passphrase, or compares right or wrong. */
  datatype Answer = NotSetUp | Right | Wrong

  datatype Attempt = Attempt(now: real, answer: Answer)

  /** How a check ends; only the last two compared a wrong passphrase. */
  datatype Result = Passed | LockedOut | NothingSetUp | BadPassphrase | NowLockedOut

  function Failed(s: State, now: real): State {
    if s.failures + 1 >= LOCKOUT_FAILURES then State(0, now + LOCKOUT_SECONDS) else s.(failures := s.failures + 1)
  }

  function Next(s: State, a: Attempt): (State, Result) {
    if s.until > a.now then (s, LockedOut)
    else match a.answer
      case NotSetUp => (s, NothingSetUp)
      case Right => (s.(failures := 0), Passed)
      case Wrong =>
        (Failed(s, a.now), if s.failures + 1 >= LOCKOUT_FAILURES then NowLockedOut else BadPassphrase)
  }

  /** Fewer than five failures are ever pending. */
  predicate Valid(s: State) { s.failures < 5 }

  class Lockout {
    var failures: nat
    var until: real

    constructor ()
      ensures Value() == State(0, 0.0)
    {
      failures, until := 0, 0.0;
    }

    function Value(): State
      reads this
    {
      State(failures, until)
    }

    /** Records a failure; true when this one triggers the lockout. */
    method Fail(now: real) returns (locked: bool)
      modifies this
      ensures Value() == Failed(old(Value()), now)
      ensures locked <==> old(failures) + 1 >= LOCKOUT_FAILURES
    {
      failures := failures + 1;
      if failures >= LOCKOUT_FAILURES {
        failures := 0;
        until := now + LOCKOUT_SECONDS;
        return true;
      }
      return false;
    }

    /** `AccessControl._check`. */
    method CheckPassphrase(now: real, answer: Answer) returns (r: Result)
      modifies this
      ensures (Value(), r) == Next(old(Value()), Attempt(now, answer))
    {
      if until > now {
        return LockedOut;
      }
      match answer
      case NotSetUp => return NothingSetUp;
      case Right =>
        failures := 0;
        return Passed;
      case Wrong =>
        var locked := Fail(now);
        return if locked then NowLockedOut else BadPassphrase;
    }
  }

  /** What one check gives and leaves: refused before the lockout is over; otherwise the right passphrase
      passes and clears the count, and a wrong one counts, the fifth of them starting 900 seconds. */
  lemma CheckIs(s: State, a: Attempt)
    ensures var (t, r) := Next(s, a);
            && (r == LockedOut <==> a.now < s.until)
            && (r == Passed <==> s.until <= a.now && a.answer == Right)
            && (r == NothingSetUp <==> s.until <= a.now && a.answer == NotSetUp)
            && (r == NowLockedOut <==> s.until <= a.now && a.answer == Wrong && s.failures >= 4)
            && (r == BadPassphrase <==> s.until <= a.now && a.answer == Wrong && s.failures < 4)
            && t.until == (if r == NowLockedOut then a.now + 900.0 else s.until)
            && t.failures == match r
                 case Passed => 0
                 case NowLockedOut => 0
                 case BadPassphrase => s.failures + 1
                 case _ => s.failures
  {}

  // ---- Over a run ----

  predicate IsFailure(r: Result) { r == BadPassphrase || r == NowLockedOut }

  /** The times at which a wrong passphrase was compared. */
  function Failures(s: State, attempts: seq<Attempt>): seq<real>
    decreases |attempts|
  {
    if attempts == [] then []
    else
      var (t, r) := Next(s, attempts[0]);
      (if IsFailure(r) then [attempts[0].now] else []) + Failures(t, attempts[1..])
  }

  /** A sequential run: the clock never goes back, and no check succeeds. */
  predicate Unsuccessful(attempts: seq<Attempt>) {
    && (forall i, j :: 0 <= i < j < |attempts| ==> attempts[i].now <= attempts[j].now)
    && (forall i :: 0 <= i < |attempts| ==> attempts[i].answer != Right)
  }

  function Wait(n: nat): real { 900.0 * ((n / 5) as real) }

  lemma WaitStep(n: nat)
    ensures n < LOCKOUT_FAILURES ==> Wait(n) == 0.0
    ensures Wait(n + LOCKOUT_FAILURES) == Wait(n) + LOCKOUT_SECONDS
  {
    assert (n + LOCKOUT_FAILURES) / LOCKOUT_FAILURES == n / LOCKOUT_FAILURES + 1;
  }

  lemma FailuresNext(s: State, attempts: seq<Attempt>)
    requires attempts != [] && attempts[0].answer != Right && Valid(s)
    ensures s.until > attempts[0].now || attempts[0].answer == NotSetUp ==>
              Failures(s, attempts) == Failures(s, attempts[1..])
    ensures s.until <= attempts[0].now && attempts[0].answer == Wrong ==>
              Failures(s, attempts) == [attempts[0].now] + Failures(Failed(s, attempts[0].now), attempts[1..])
  {}

  /** When nothing can be compared before `from`, the failure with index n comes at `from` plus a
      lockout for every five failures, counting those already pending. */
  lemma {:induction false} FailureComesAfter(s: State, attempts: seq<Attempt>, from: real, n: nat)
    requires Valid(s) && Unsuccessful(attempts) && n < |Failures(s, attempts)|
    requires attempts != [] && attempts[0].now < from ==> s.until >= from
    ensures Failures(s, attempts)[n] >= from + Wait(n + s.failures)
    decreases |attempts|
  {
    var now := attempts[0].now;
    FailuresNext(s, attempts);
    WaitStep(s.failures);
    if s.until > now || attempts[0].answer == NotSetUp {
      FailureComesAfter(s, attempts[1..], from, n);
    } else if n > 0 {
      var t := Failed(s, now);
      if s.failures + 1 < LOCKOUT_FAILURES {
        FailureComesAfter(t, attempts[1..], now, n - 1);
      } else {
        FailureComesAfter(t, attempts[1..], now + LOCKOUT_SECONDS, n - 1);
        WaitStep(n - 1);
      }
    }
  }

  /** The rate bound: with no success, the failure with index n comes at least 900 seconds per
      five failures after the first, whatever was pending before. */
  lemma {:induction false} RateBound(s: State, attempts: seq<Attempt>, n: nat)
    requires Valid(s) && Unsuccessful(attempts) && n < |Failures(s, attempts)|
    ensures Failures(s, attempts)[n] >= Failures(s, attempts)[0] + Wait(n + s.failures)
    decreases |attempts|
  {
    FailuresNext(s, attempts);
    if s.until > attempts[0].now || attempts[0].answer == NotSetUp {
      RateBound(s, attempts[1..], n);
    } else {
      FailureComesAfter(s, attempts, attempts[0].now, n);
    }
  }

  /** Hence no six wrong passphrases are compared within one lockout. */
  lemma {:induction false} NoSixInOneLockout(s: State, attempts: seq<Attempt>, n: nat)
    requires Valid(s) && Unsuccessful(attempts) && n + 5 < |Failures(s, attempts)|
    ensures Failures(s, attempts)[n + 5] >= Failures(s, attempts)[n] + 900.0
    decreases |attempts|
  {
    FailuresNext(s, attempts);
    if s.until > attempts[0].now || attempts[0].answer == NotSetUp {
      NoSixInOneLockout(s, attempts[1..], n);
    } else if n > 0 {
      NoSixInOneLockout(Failed(s, attempts[0].now), attempts[1..], n - 1);
    } else {
      RateBound(s, attempts, LOCKOUT_FAILURES);
      WaitStep(s.failures);
    }
  }

  // ---- Honest users ----

  /** No five wrong passphrases come without a right one in between, `f` being pending. */
  predicate NeverFiveInARow(f: nat, attempts: seq<Attempt>)
    decreases |attempts|
  {
    attempts != [] ==>
      match attempts[0].answer
      case Wrong => f + 1 < 5 && NeverFiveInARow(f + 1, attempts[1..])
      case Right => NeverFiveInARow(0, attempts[1..])
      case NotSetUp => NeverFiveInARow(f, attempts[1..])
  }

  /** No check of the run is refused or locks out. */
  predicate NeverLockedOut(s: State, attempts: seq<Attempt>)
    decreases |attempts|
  {
    attempts != [] ==>
      var (t, r) := Next(s, attempts[0]);
      r != LockedOut && r != NowLockedOut && NeverLockedOut(t, attempts[1..])
  }

  /** Whoever starts unlocked is locked out exactly by five wrong passphrases without a right
      one in between, however long that takes. */
  lemma {:induction false} LockedOutIff(s: State, attempts: seq<Attempt>)
    requires Valid(s) && forall i :: 0 <= i < |attempts| ==> s.until <= attempts[i].now
    ensures NeverLockedOut(s, attempts) <==> NeverFiveInARow(s.failures, attempts)
    decreases |attempts|
  {
    if attempts != [] && !(attempts[0].answer == Wrong && s.failures + 1 >= LOCKOUT_FAILURES) {
      LockedOutIff(Next(s, attempts[0]).0, attempts[1..]);
    }
  }

  // ---- The bound is reached ----

  /** Wrong passphrases sent as soon as each one can be compared: number k at `from + Wait(k)`. */
  function Eager(from: real, k: nat, n: nat): seq<Attempt>
    requires k <= n
    decreases n - k
  {
    if k == n then [] else [Attempt(from + Wait(k), Wrong)] + Eager(from, k + 1, n)
  }

  lemma {:induction false} EagerIsCompared(s: State, from: real, k: nat, n: nat, i: nat)
    requires k <= n && s.failures == k % LOCKOUT_FAILURES && s.until <= from + Wait(k) && i < n - k
    ensures |Failures(s, Eager(from, k, n))| == n - k && Failures(s, Eager(from, k, n))[i] == from + Wait(k + i)
    decreases n - k
  {
    var now := from + Wait(k);
    var rest := Eager(from, k + 1, n);
    var t := Failed(s, now);
    FailuresNext(s, Eager(from, k, n));
    assert Eager(from, k, n)[1..] == rest;
    EagerNext(s, from, k);
    if k + 1 < n {
      EagerIsCompared(t, from, k + 1, n, if i > 0 then i - 1 else 0);
    }
  }

  lemma EagerNext(s: State, from: real, k: nat)
    requires s.failures == k % LOCKOUT_FAILURES && s.until <= from + Wait(k)
    ensures var t := Failed(s, from + Wait(k));
            t.failures == (k + 1) % LOCKOUT_FAILURES && t.until <= from + Wait(k + 1)
  {
    if k % LOCKOUT_FAILURES == LOCKOUT_FAILURES - 1 {
      assert (k + 1) / LOCKOUT_FAILURES == k / LOCKOUT_FAILURES + 1;
    } else {
      assert (k + 1) / LOCKOUT_FAILURES == k / LOCKOUT_FAILURES;
    }
  }

  /** No bound can be larger: a fresh lockout compares n wrong passphrases exactly that fast. */
  lemma RateBoundIsReached(from: real, n: nat, i: nat)
    requires 0.0 <= from && i < n
    ensures |Failures(State(0, 0.0), Eager(from, 0, n))| == n
    ensures Failures(State(0, 0.0), Eager(from, 0, n))[i] == from + Wait(i)
  {
    EagerIsCompared(State(0, 0.0), from, 0, n, i);
  }
}
