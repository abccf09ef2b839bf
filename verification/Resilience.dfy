/** The circuit breaker over whole runs, interleaved or sequential, and retry with backoff. */
module Resilience {
  import opened Options
  import opened Numbers

  // ---- The breaker's state ----------------------------------------------------------

  datatype Breaker = Breaker(failures: nat, openedAt: int, open: bool)

  datatype CircuitState = Closed | Open | HalfOpen

  datatype Policy = Policy(threshold: int, cooldown: int)

  const FRESH := Breaker(0, 0, false)

  function StateAt(p: Policy, b: Breaker, now: int): CircuitState {
    if !b.open then Closed else if now - b.openedAt >= p.cooldown then HalfOpen else Open
  }

  function OnSuccess(b: Breaker): Breaker { b.(failures := 0, open := false) }

  function OnFailure(p: Policy, b: Breaker, now: int): Breaker {
    if b.failures + 1 >= p.threshold then Breaker(b.failures + 1, now, true) else b.(failures := b.failures + 1)
  }

  /**
   * One call is two turns: it starts, unless it is rejected, and some time later it settles. Other
   * calls may start and settle in between.
   */
  class CircuitBreaker {
    const policy: Policy
    var failures: nat
    var openedAt: int
    var open: bool

    constructor (policy: Policy)
      ensures this.policy == policy && Now() == FRESH
    {
      this.policy := policy;
      failures, openedAt, open := 0, 0, false;
    }

    function Now(): Breaker
      reads this
    {
      Breaker(failures, openedAt, open)
    }

    /** Whether a call made at `now` goes through; nothing changes yet. */
    method Start(now: int) returns (admitted: bool)
      ensures admitted <==> StateAt(policy, Now(), now) != Open
    {
      if open && now - openedAt < policy.cooldown { return false; }
      return true;
    }

    method Succeed()
      modifies this
      ensures Now() == OnSuccess(old(Now()))
    {
      failures := 0;
      open := false;
    }

    method Fail(now: int)
      modifies this
      ensures Now() == OnFailure(policy, old(Now()), now)
    {
      failures := failures + 1;
      if failures >= policy.threshold {
        open := true;
        openedAt := now;
      }
    }

    /** A call with nothing in between; `settled` is when it settles and `ok` how. */
    method Exec(now: int, settled: int, ok: bool) returns (admitted: bool)
      modifies this
      ensures admitted <==> StateAt(policy, old(Now()), now) != Open
      ensures Now() == if !admitted then old(Now()) else if ok then OnSuccess(old(Now()))
              else OnFailure(policy, old(Now()), settled)
    {
      admitted := Start(now);
      if !admitted { return; }
      if ok { Succeed(); } else { Fail(settled); }
    }
  }

  // ---- Interleaved runs ---------------------------------------------------------------

  /** Calls settle in any order; starting or being rejected changes nothing. */
  datatype Event = Started(at: int) | Rejected(at: int) | Succeeded | Failed(at: int)

  function After(p: Policy, run: seq<Event>): Breaker {
    if run == [] then FRESH
    else
      var b := After(p, run[..|run| - 1]);
      match run[|run| - 1]
      case Started(_) => b
      case Rejected(_) => b
      case Succeeded => OnSuccess(b)
      case Failed(at) => OnFailure(p, b, at)
  }

  /** How many calls have failed since one last succeeded. */
  function FailuresSince(run: seq<Event>): nat {
    if run == [] then 0
    else
      match run[|run| - 1]
      case Succeeded => 0
      case Failed(_) => FailuresSince(run[..|run| - 1]) + 1
      case _ => FailuresSince(run[..|run| - 1])
  }

  function LastFailure(run: seq<Event>): Option<int> {
    if run == [] then None
    else match run[|run| - 1] case Failed(at) => Some(at) case _ => LastFailure(run[..|run| - 1])
  }

  function Cap(p: Policy): nat { if p.threshold > 1 then p.threshold else 1 }

  /** What every turn keeps, whatever the threshold. */
  lemma {:induction false} OpenExactly(p: Policy, run: seq<Event>)
    ensures var b := After(p, run);
            && b.failures == FailuresSince(run)
            && (b.open <==> FailuresSince(run) >= Cap(p))
            && (b.open ==> LastFailure(run) == Some(b.openedAt))
  {
    if run != [] { OpenExactly(p, run[..|run| - 1]); }
  }

  /**
   * At every point of every run, interleaved calls included, the breaker is open if and only if the
   * failures since the last success have reached the threshold: for a positive threshold always, for
   * any other only once there has been such a failure.
   */
  lemma OpenAtThreshold(p: Policy, run: seq<Event>)
    ensures (After(p, run).open <==> FailuresSince(run) >= p.threshold) <==> p.threshold > 0 || FailuresSince(run) > 0
  {
    OpenExactly(p, run);
  }

  /**
   * After any run, a call is rejected exactly if the failures since the last success have reached
   * the threshold and the last of them is less than a cooldown ago.
   */
  lemma RejectedExactly(p: Policy, run: seq<Event>, now: int)
    ensures StateAt(p, After(p, run), now) == Open <==>
            FailuresSince(run) >= Cap(p) && LastFailure(run).Some? && now < LastFailure(run).value + p.cooldown
    ensures StateAt(p, After(p, run), now) == Closed <==> FailuresSince(run) < Cap(p)
  {
    OpenExactly(p, run);
  }

  /** A run in which every start was admitted and every rejection was due. */
  ghost predicate Genuine(p: Policy, run: seq<Event>) {
    forall i :: 0 <= i < |run| ==> EventDue(p, After(p, run[..i]), run[i])
  }

  predicate EventDue(p: Policy, b: Breaker, e: Event) {
    match e
    case Started(at) => StateAt(p, b, at) != Open
    case Rejected(at) => StateAt(p, b, at) == Open
    case _ => true
  }

  function Repeat(e: Event, n: nat): (run: seq<Event>)
    ensures |run| == n && forall i :: 0 <= i < n ==> run[i] == e
  {
    seq(n, _ => e)
  }

  lemma {:induction false} StartsChangeNothing(p: Policy, run: seq<Event>, at: int, n: nat)
    ensures After(p, run + Repeat(Started(at), n)) == After(p, run)
  {
    var all := run + Repeat(Started(at), n);
    if n == 0 {
      assert all == run;
    } else {
      assert all[..|all| - 1] == run + Repeat(Started(at), n - 1);
      StartsChangeNothing(p, run, at, n - 1);
    }
  }

  /**
   * Once an open breaker has cooled down it lets through not one trial call but any number of them,
   * until one settles.
   */
  lemma HalfOpenAdmitsMany(p: Policy, run: seq<Event>, at: int, n: nat)
    requires Genuine(p, run) && After(p, run).open && at - After(p, run).openedAt >= p.cooldown
    ensures Genuine(p, run + Repeat(Started(at), n))
            && StateAt(p, After(p, run + Repeat(Started(at), n)), at) == HalfOpen
  {
    hide After, Repeat;
    var all := run + Repeat(Started(at), n);
    StartsChangeNothing(p, run, at, n);
    forall i | 0 <= i < |all| ensures EventDue(p, After(p, all[..i]), all[i]) { StartsDue(p, run, at, n, i); }
  }

  lemma StartsDue(p: Policy, run: seq<Event>, at: int, n: nat, i: nat)
    requires Genuine(p, run) && StateAt(p, After(p, run), at) != Open && i < |run| + n
    ensures var all := run + Repeat(Started(at), n); EventDue(p, After(p, all[..i]), all[i])
  {
    hide After, StateAt;
    var all := run + Repeat(Started(at), n);
    if i < |run| {
      assert all[..i] == run[..i];
      assert EventDue(p, After(p, run[..i]), run[i]);
    } else {
      assert all[..i] == run + Repeat(Started(at), i - |run|);
      StartsChangeNothing(p, run, at, i - |run|);
    }
  }

  // ---- Sequential runs without a success --------------------------------------------------

  /** A call made at `at` which, if it is let through, fails `took` later. */
  datatype Attempt = Attempt(at: int, took: nat)

  /** No call is made before the one before it has settled, and all are made from `from` to `until`. */
  ghost predicate OneByOne(attempts: seq<Attempt>, from: int, until: int)
    decreases |attempts|
  {
    attempts != [] ==>
      from <= attempts[0].at <= until && OneByOne(attempts[1..], attempts[0].at + attempts[0].took, until)
  }

  /** How many of these calls start. */
  function Starts(p: Policy, b: Breaker, attempts: seq<Attempt>): nat
    decreases |attempts|
  {
    if attempts == [] then 0
    else if StateAt(p, b, attempts[0].at) == Open then Starts(p, b, attempts[1..])
    else 1 + Starts(p, OnFailure(p, b, attempts[0].at + attempts[0].took), attempts[1..])
  }

  lemma OneMore(n: int, c: int)
    ensures (n + 1) * c == n * c + c
  {}

  /** Calls still to come: what the closed breaker lets through at once, then one per cooldown. */
  lemma {:induction false} StartsSpread(p: Policy, b: Breaker, attempts: seq<Attempt>, from: int, until: int)
    requires p.cooldown > 0 && (b.open <==> b.failures >= Cap(p)) && OneByOne(attempts, from, until)
    ensures var n := Starts(p, b, attempts);
            if attempts == [] then n == 0
            else if b.open then n == 0 || ((n - 1) * p.cooldown <= until - from && n * p.cooldown <= until - b.openedAt)
            else (n - (Cap(p) - b.failures)) * p.cooldown <= until - from
    decreases |attempts|
  {
    if attempts != [] {
      var a, rest := attempts[0], attempts[1..];
      if StateAt(p, b, a.at) == Open {
        StartsSpread(p, b, rest, a.at + a.took, until);
      } else {
        var next := OnFailure(p, b, a.at + a.took);
        StartsSpread(p, next, rest, a.at + a.took, until);
        OneMore(Starts(p, next, rest), p.cooldown);
      }
    }
  }

  /**
   * Calls made one at a time over a duration `t`, none of them succeeding: at most as many start as
   * the threshold, less the failures already counted, plus one for every full cooldown in `t`.
   */
  lemma StartsBounded(p: Policy, run: seq<Event>, attempts: seq<Attempt>, from: int, t: nat)
    requires p.cooldown > 0 && OneByOne(attempts, from, from + t)
    ensures var b := After(p, run);
            Starts(p, b, attempts) <= (if b.failures < Cap(p) then Cap(p) - b.failures else 1) + t / p.cooldown
    ensures p.threshold > 0 ==> Starts(p, After(p, run), attempts) <= p.threshold + t / p.cooldown
  {
    var b := After(p, run);
    OpenExactly(p, run);
    var extra := if b.failures < Cap(p) then Cap(p) - b.failures else 1;
    StartsFit(p, b, attempts, from, t, extra);
    SpreadBounds(Starts(p, b, attempts), extra, p.cooldown, t);
    hide Starts, After, OneByOne, FailuresSince, LastFailure;
  }

  lemma StartsFit(p: Policy, b: Breaker, attempts: seq<Attempt>, from: int, t: nat, extra: nat)
    requires p.cooldown > 0 && (b.open <==> b.failures >= Cap(p)) && OneByOne(attempts, from, from + t)
    requires extra == if b.failures < Cap(p) then Cap(p) - b.failures else 1
    ensures var n := Starts(p, b, attempts); n == 0 || (n - extra) * p.cooldown <= t
  {
    StartsSpread(p, b, attempts, from, from + t);
    hide Starts, OneByOne;
  }

  lemma SpreadBounds(n: nat, slots: nat, d: nat, t: nat)
    requires d > 0 && (n - slots) * d <= t
    ensures n <= slots + t / d
  {
    if n > slots { AtMostQuotient(n - slots, d, t); }
  }

  lemma AtMostQuotient(k: nat, d: nat, t: nat)
    requires d > 0 && k * d <= t
    ensures k <= t / d
  {
    var q := t / d;
    assert t < (q + 1) * d;
    assert q + 1 <= k ==> (q + 1) * d <= k * d;
  }

  // ---- Retry ------------------------------------------------------------------------------

  datatype Outcome<+T, +E> = Value(value: T) | Raised(error: Option<E>)

  /** The delays before the retries that were made. */
  function Delays(base: int, n: nat): (d: seq<int>)
    ensures |d| == if base > 0 then n else 0
  {
    if base <= 0 || n == 0 then [] else Delays(base, n - 1) + [base * Pow2(n - 1)]
  }

  /** Each delay is twice the one before, from the base on. */
  lemma {:induction false} DelaysDouble(base: int, n: nat)
    ensures base > 0 && n > 0 ==> Delays(base, n)[0] == base
    ensures forall i :: 0 < i < |Delays(base, n)| ==> Delays(base, n)[i] == 2 * Delays(base, n)[i - 1]
  {
    hide Pow2;
    if base > 0 && n > 0 {
      DelaysDouble(base, n - 1);
      FirstPower(base);
      if n > 1 {
        NextPower(base, n - 2);
        assert Delays(base, n - 1)[n - 2] == base * Pow2(n - 2);
      }
    }
  }

  lemma FirstPower(base: int)
    ensures base * Pow2(0) == base
  {}

  lemma NextPower(base: int, k: nat)
    ensures base * Pow2(k + 1) == 2 * (base * Pow2(k))
  {}

  function Sum(d: seq<int>): int { if d == [] then 0 else Sum(d[..|d| - 1]) + d[|d| - 1] }

  /**
   * `fn(i)` is how attempt `i` ends. Attempts go on while they fail with an error worth retrying and
   * retries are left; with a negative number of retries there is not even a first one.
   */
  method WithRetry<T, E>(fn: nat -> Outcome<T, E>, retries: int, baseDelay: int, shouldRetry: Option<E> -> bool)
    returns (r: Outcome<T, E>, attempts: nat, slept: seq<int>)
    ensures retries < 0 ==> attempts == 0 && r == Raised(None)
    ensures retries >= 0 ==> 1 <= attempts <= retries + 1 && r == fn(attempts - 1)
    ensures forall i: nat :: i < attempts - 1 ==> fn(i).Raised? && shouldRetry(fn(i).error)
    ensures retries >= 0 ==> r.Value? || attempts == retries + 1 || !shouldRetry(r.error)
    ensures slept == Delays(baseDelay, if attempts == 0 then 0 else attempts - 1)
  {
    r, attempts, slept := Raised(None), 0, [];
    while attempts <= retries
      invariant 0 <= attempts && (retries >= 0 ==> attempts <= retries)
      invariant retries < 0 ==> attempts == 0
      invariant attempts == 0 ==> r == Raised(None)
      invariant forall i: nat :: i < attempts ==> fn(i).Raised? && shouldRetry(fn(i).error)
      invariant slept == Delays(baseDelay, attempts)
      decreases retries - attempts
    {
      r := fn(attempts);
      attempts := attempts + 1;
      if r.Value? { return; }
      if attempts - 1 == retries || !shouldRetry(r.error) { break; }
      if baseDelay > 0 { slept := slept + [baseDelay * Pow2(attempts - 1)]; }
    }
  }

  lemma Doubling(base: int, p: int)
    ensures base * (p - 1) + base * p == base * (2 * p - 1)
  {
    Spread(p - 1, p, base);
  }

  /** Backoff over `n` retries adds up to the base times one less than the next power of two. */
  lemma {:induction false} TotalDelay(base: int, n: nat)
    requires base > 0
    ensures Sum(Delays(base, n)) == base * (Pow2(n) - 1)
  {
    if n > 0 {
      TotalDelay(base, n - 1);
      var d := Delays(base, n);
      assert d[..|d| - 1] == Delays(base, n - 1);
      Doubling(base, Pow2(n - 1));
    }
  }
}
