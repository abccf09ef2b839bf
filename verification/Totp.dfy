/** Time-based codes: one verification, and what a caller who stores each accepted counter gets over a run. */
module Totp {
  import opened Options
  import opened Numbers
  import opened Text
  import B = Base32

  type Digest = d: seq<Byte> | |d| == 20 witness seq(20, _ => 0)

  /** The settings of a verification that stay the same from one attempt to the next. */
  datatype Settings = Settings(
    hmac: (seq<Byte>, nat) -> Digest, upper: Text -> Text, secretBase32: Text, stepSeconds: nat, digits: nat,
    skewSteps: int)

  // ---- Codes ----------------------------------------------------------------------

  /** The time step an instant in milliseconds falls in, rounding down before the epoch too. */
  function TotpCounter(ms: int, stepSeconds: nat): int
    requires stepSeconds > 0
  {
    ms / (1000 * stepSeconds)
  }

  /** The step `k` has begun by this instant. */
  lemma BegunBy(ms: int, stepSeconds: nat, k: int)
    requires stepSeconds > 0
    ensures k <= TotpCounter(ms, stepSeconds) <==> 1000 * stepSeconds * k <= ms
  {
    var d := 1000 * stepSeconds;
    var q, m := ms / d, ms % d;
    assert ms == d * q + m && 0 <= m < d;
    Spread(q, 1, d);
    if k <= q { Scaled(k, q, d); } else { Scaled(q + 1, k, d); }
  }

  /** The counter is the step that contains the instant, before the epoch too. */
  lemma CounterContains(ms: int, stepSeconds: nat, c: int)
    requires stepSeconds > 0
    ensures TotpCounter(ms, stepSeconds) == c <==> 1000 * stepSeconds * c <= ms < 1000 * stepSeconds * (c + 1)
  {
    hide TotpCounter;
    BegunBy(ms, stepSeconds, c);
    BegunBy(ms, stepSeconds, c + 1);
  }

  function Pow10(k: nat): (r: nat)
    ensures r > 0
  {
    if k == 0 then 1 else 10 * Pow10(k - 1)
  }

  /** Dynamic truncation: the low 31 bits of the big-endian number where the last nibble points. */
  function Truncated(d: Digest): (n: nat)
    ensures var o := d[19] % 16; n == BigEndian(d[o..o + 4]) % 0x8000_0000
  {
    var o := d[19] % 16;
    var a: int, b: int, c: int, e: int := d[o], d[o + 1], d[o + 2], d[o + 3];
    var n := a % 128 * 0x100_0000 + b * 0x1_0000 + c * 0x100 + e;
    FourBytes(d[o..o + 4]);
    DivModUnique(BigEndian(d[o..o + 4]), 0x8000_0000, a / 128, n);
    n
  }

  function BigEndian(bytes: seq<Byte>): nat {
    if bytes == [] then 0 else BigEndian(bytes[..|bytes| - 1]) * 256 + bytes[|bytes| - 1]
  }

  lemma FourBytes(w: seq<Byte>)
    requires |w| == 4
    ensures var a: int, b: int, c: int, e: int := w[0], w[1], w[2], w[3];
            BigEndian(w) == a * 0x100_0000 + b * 0x1_0000 + c * 0x100 + e
  {
    var a: int, b: int, c: int := w[0], w[1], w[2];
    assert w[..3][..2] == w[..2] && w[..2][..1] == w[..1] && w[..1][..0] == [];
    assert BigEndian(w[..1]) == a;
    assert BigEndian(w[..2]) == a * 256 + b;
    assert BigEndian(w[..3]) == (a * 256 + b) * 256 + c;
  }

  function Zeros(k: nat): (z: Text)
    ensures |z| == k && forall i :: 0 <= i < k ==> z[i] == ZERO
  {
    seq(k, _ => ZERO)
  }

  /** `padStart(k, '0')`: a text that is long enough already stays as it is. */
  function PadStart(t: Text, k: nat): Text { if |t| < k then Zeros(k - |t|) + t else t }

  /** The power of ten with `k` zeros. */
  lemma {:induction false} Pow10Is(k: nat)
    ensures Natural([0x31] + Zeros(k)) == Pow10(k)
  {
    var t := [0x31] + Zeros(k);
    if k == 0 {
      assert t[..0] == [] && Natural(t[..0]) == 0;
    } else {
      assert t[..|t| - 1] == [0x31] + Zeros(k - 1) && t[|t| - 1] == ZERO;
      Pow10Is(k - 1);
    }
  }

  /** What a code denotes: the truncated digest modulo a power of ten. */
  function CodeValue(x: Settings, secret: seq<Byte>, counter: nat): (n: nat)
    ensures n < Pow10(x.digits)
  {
    Truncated(x.hmac(secret, counter)) % Pow10(x.digits)
  }

  function TotpCode(x: Settings, secret: seq<Byte>, counter: nat): Text {
    PadStart(Decimal(CodeValue(x, secret, counter)), x.digits)
  }

  /** `[0-9]{digits}` */
  predicate IsCode(t: Text, digits: nat) { |t| == digits && AllDigits(t) }

  lemma {:induction false} DecimalLength(n: nat, k: nat)
    requires n < Pow10(k)
    ensures |Decimal(n)| <= if k == 0 then 1 else k
  {
    if n >= 10 { DecimalLength(n / 10, k - 1); }
  }

  lemma {:induction false} NaturalPadded(z: nat, t: Text)
    ensures Natural(Zeros(z) + t) == Natural(t)
    decreases z + |t|
  {
    var s := Zeros(z) + t;
    if t != [] {
      assert s[..|s| - 1] == Zeros(z) + t[..|t| - 1];
      NaturalPadded(z, t[..|t| - 1]);
    } else if z > 0 {
      assert s[..z - 1] == Zeros(z - 1) + [];
      NaturalPadded(z - 1, []);
    }
  }

  /** Digits of one length denote different numbers unless they are the same digits. */
  lemma {:induction false} NaturalInjective(s: Text, t: Text)
    requires |s| == |t| && AllDigits(s) && AllDigits(t) && Natural(s) == Natural(t)
    ensures s == t
  {
    if s != [] {
      var n := |s| - 1;
      NaturalInjective(s[..n], t[..n]);
      assert s == s[..n] + [s[n]] && t == t[..n] + [t[n]];
    }
  }

  /** A code is digits, one at least, and otherwise as many as asked for; they denote its value. */
  lemma CodeShape(x: Settings, secret: seq<Byte>, counter: nat)
    ensures var t := TotpCode(x, secret, counter);
            && AllDigits(t) && Natural(t) == CodeValue(x, secret, counter)
            && |t| == (if x.digits == 0 then 1 else x.digits)
  {
    var n := CodeValue(x, secret, counter);
    var t := Decimal(n);
    DecimalLength(n, x.digits);
    NaturalOfDecimal(n);
    if |t| < x.digits { NaturalPadded(x.digits - |t|, t); }
  }

  /** Among the candidates of a length, the code is the one that denotes its value; at length 0 there is none. */
  lemma CodeExactly(x: Settings, secret: seq<Byte>, counter: nat, candidate: Text)
    requires IsCode(candidate, x.digits)
    ensures TotpCode(x, secret, counter) == candidate <==>
            x.digits > 0 && Natural(candidate) == CodeValue(x, secret, counter)
  {
    CodeShape(x, secret, counter);
    if x.digits > 0 && Natural(candidate) == CodeValue(x, secret, counter) {
      NaturalInjective(candidate, TotpCode(x, secret, counter));
    }
  }

  // ---- One verification -------------------------------------------------------------

  datatype Failure = MalformedCode | InvalidCode | ReplayedCode

  datatype Verification = Accepted(counter: nat) | Refused(reason: Failure) | Threw

  predicate Matches(x: Settings, secret: seq<Byte>, candidate: Text, counter: int) {
    counter >= 0 && TotpCode(x, secret, counter) == candidate
  }

  /** The least counter from `c` to `hi` whose code is the candidate. */
  function LeastMatch(x: Settings, secret: seq<Byte>, candidate: Text, c: int, hi: int): (r: Option<nat>)
    ensures r.Some? ==> c <= r.value <= hi && Matches(x, secret, candidate, r.value)
    decreases hi + 1 - c
  {
    if hi < c then None
    else if Matches(x, secret, candidate, c) then Some(c)
    else LeastMatch(x, secret, candidate, c + 1, hi)
  }

  lemma {:induction false} LeastMatchIsLeast(x: Settings, secret: seq<Byte>, candidate: Text, c: int, hi: int)
    ensures var r := LeastMatch(x, secret, candidate, c, hi);
            forall k :: c <= k <= hi && Matches(x, secret, candidate, k) ==> r.Some? && r.value <= k
    decreases hi + 1 - c
  {
    if c <= hi { LeastMatchIsLeast(x, secret, candidate, c + 1, hi); }
  }

  lemma LeastMatchStep(x: Settings, secret: seq<Byte>, candidate: Text, c: int, hi: int)
    ensures LeastMatch(x, secret, candidate, c, hi) ==
            if hi < c then None else if Matches(x, secret, candidate, c) then Some(c)
              else LeastMatch(x, secret, candidate, c + 1, hi)
  {
    hide Matches;
  }

  function Window(x: Settings, ms: int): (int, int)
    requires x.stepSeconds > 0
  {
    var current := TotpCounter(ms, x.stepSeconds);
    (current - x.skewSteps, current + x.skewSteps)
  }

  /** What a verification answers, and when it throws instead. */
  function Verified(x: Settings, submitted: Text, ms: int, last: Option<int>): Verification
    requires x.stepSeconds > 0
  {
    var candidate := B.Stripped(submitted);
    var secret := B.Decoded(x.upper, x.secretBase32);
    if !IsCode(candidate, x.digits) then Refused(MalformedCode)
    else if secret.None? then Threw
    else
      match LeastMatch(x, secret.value, candidate, Window(x, ms).0, Window(x, ms).1)
      case None => Refused(InvalidCode)
      case Some(c) => if last.Some? && c <= last.value then Refused(ReplayedCode) else Accepted(c)
  }

  /** The whole window is scanned even after a hit. */
  method VerifyTotpCode(x: Settings, submitted: Text, ms: int, last: Option<int>) returns (r: Verification)
    requires x.stepSeconds > 0
    ensures r == Verified(x, submitted, ms, last)
  {
    var candidate := B.Stripped(submitted);
    if !IsCode(candidate, x.digits) { return Refused(MalformedCode); }
    var secret := B.DecodeBase32(x.upper, x.secretBase32);
    if secret.None? { return Threw; }
    hide TotpCode, LeastMatch, TotpCounter, IsCode, AllDigits, B.Decoded, B.Stripped;
    var current := TotpCounter(ms, x.stepSeconds);
    var matched: Option<nat> := None;
    var counter := current - x.skewSteps;
    ghost var end := current + x.skewSteps;
    ghost var promised := LeastMatch(x, secret.value, candidate, counter, end);
    while counter <= current + x.skewSteps
      invariant promised == if matched.Some? then matched else LeastMatch(x, secret.value, candidate, counter, end)
      decreases end - counter
    {
      LeastMatchStep(x, secret.value, candidate, counter, end);
      if counter < 0 { counter := counter + 1; continue; }
      var expected := TotpCode(x, secret.value, counter);
      if |expected| == |candidate| && expected == candidate && matched == None { matched := Some(counter); }
      counter := counter + 1;
    }
    LeastMatchStep(x, secret.value, candidate, counter, end);
    assert promised == matched;
    if matched == None { return Refused(InvalidCode); }
    if last.Some? && matched.value <= last.value { return Refused(ReplayedCode); }
    return Accepted(matched.value);
  }

  /** The candidate denotes the value of this counter's code. */
  predicate Denotes(x: Settings, secret: seq<Byte>, candidate: Text, counter: int) {
    counter >= 0 && Natural(candidate) == CodeValue(x, secret, counter)
  }

  /** The instant lies in one of the steps from `skewSteps` before step `c` to as many after it. */
  predicate InWindow(x: Settings, ms: int, c: int) {
    1000 * x.stepSeconds * (c - x.skewSteps) <= ms < 1000 * x.stepSeconds * (c + x.skewSteps + 1)
  }

  lemma WindowIs(x: Settings, ms: int, c: int)
    requires x.stepSeconds > 0
    ensures InWindow(x, ms, c) <==> Window(x, ms).0 <= c <= Window(x, ms).1
  {
    hide TotpCounter;
    BegunBy(ms, x.stepSeconds, c - x.skewSteps);
    BegunBy(ms, x.stepSeconds, c + x.skewSteps + 1);
  }

  /**
   * A counter is accepted exactly when it is the least in the window whose value the candidate
   * denotes and it is new. A code of no digits is never accepted.
   */
  lemma AcceptedExactly(x: Settings, submitted: Text, ms: int, last: Option<int>, c: nat)
    requires x.stepSeconds > 0
    ensures var secret := B.Decoded(x.upper, x.secretBase32); var candidate := B.Stripped(submitted);
            Verified(x, submitted, ms, last) == Accepted(c) <==>
            && x.digits > 0 && IsCode(candidate, x.digits) && secret.Some?
            && InWindow(x, ms, c) && Denotes(x, secret.value, candidate, c)
            && (forall k :: k < c && InWindow(x, ms, k) ==> !Denotes(x, secret.value, candidate, k))
            && (last.Some? ==> last.value < c)
  {
    hide TotpCode, Natural, CodeValue, TotpCounter, InWindow, Window;
    forall k ensures InWindow(x, ms, k) <==> Window(x, ms).0 <= k <= Window(x, ms).1 { WindowIs(x, ms, k); }
    var secret := B.Decoded(x.upper, x.secretBase32);
    var candidate, w := B.Stripped(submitted), Window(x, ms);
    if secret.Some? && IsCode(candidate, x.digits) {
      LeastMatchIsLeast(x, secret.value, candidate, w.0, w.1);
      forall k
        ensures Matches(x, secret.value, candidate, k) <==> x.digits > 0 && Denotes(x, secret.value, candidate, k)
      {
        if k >= 0 { CodeExactly(x, secret.value, k, candidate); }
      }
    }
  }

  /** What a verification that asks for no digits answers. */
  lemma NoDigits(x: Settings, submitted: Text, ms: int, last: Option<int>)
    requires x.stepSeconds > 0 && x.digits == 0
    ensures Verified(x, submitted, ms, last) ==
            if B.Stripped(submitted) != [] then Refused(MalformedCode)
            else if B.Decoded(x.upper, x.secretBase32).None? then Threw
            else Refused(InvalidCode)
  {
    hide TotpCode, TotpCounter;
    var secret, w := B.Decoded(x.upper, x.secretBase32), Window(x, ms);
    if secret.Some? && B.Stripped(submitted) == [] {
      var r := LeastMatch(x, secret.value, [], w.0, w.1);
      if r.Some? { CodeShape(x, secret.value, r.value); }
    }
  }

  // ---- Runs -------------------------------------------------------------------------

  datatype Attempt = Attempt(submitted: Text, ms: int)

  datatype Acceptance = Acceptance(counter: nat, ms: int)

  /** The acceptances of a run in which the caller stores every counter it is given. */
  function Run(x: Settings, attempts: seq<Attempt>, last: Option<int>): seq<Acceptance>
    requires x.stepSeconds > 0
  {
    if attempts == [] then []
    else
      match Verified(x, attempts[0].submitted, attempts[0].ms, last)
      case Accepted(c) => [Acceptance(c, attempts[0].ms)] + Run(x, attempts[1..], Some(c))
      case _ => Run(x, attempts[1..], last)
  }

  predicate Rising(log: seq<Acceptance>) {
    forall i, j :: 0 <= i < j < |log| ==> log[i].counter < log[j].counter
  }

  lemma RisingCons(a: Acceptance, rest: seq<Acceptance>)
    ensures Rising([a] + rest) <==> Rising(rest) && forall b :: b in rest ==> a.counter < b.counter
  {
    var log := [a] + rest;
    assert forall i :: 0 <= i < |rest| ==> log[i + 1] == rest[i];
    if Rising(log) {
      forall i, j | 0 <= i < j < |rest| ensures rest[i].counter < rest[j].counter {
        assert log[i + 1].counter < log[j + 1].counter;
      }
      forall b | b in rest ensures a.counter < b.counter {
        var i :| 0 <= i < |rest| && rest[i] == b;
        assert log[0].counter < log[i + 1].counter;
      }
    }
    if Rising(rest) && forall b :: b in rest ==> a.counter < b.counter {
      forall i, j | 0 <= i < j < |log| ensures log[i].counter < log[j].counter {
        assert log[j] == rest[j - 1];
        if i > 0 { assert log[i] == rest[i - 1]; }
      }
    }
  }

  /** Every counter is later than the one before, and within the window of its instant. */
  ghost predicate Ascending(x: Settings, log: seq<Acceptance>, last: Option<int>)
    requires x.stepSeconds > 0
  {
    && (forall i :: 0 <= i < |log| ==> last.Some? ==> last.value < log[i].counter)
    && Rising(log)
    && (forall i :: 0 <= i < |log| ==> Window(x, log[i].ms).0 <= log[i].counter <= Window(x, log[i].ms).1)
  }

  /** Accepted counters strictly increase, whatever the clock does: no code is accepted twice. */
  lemma {:induction false} CountersIncrease(x: Settings, attempts: seq<Attempt>, last: Option<int>)
    requires x.stepSeconds > 0
    ensures Ascending(x, Run(x, attempts, last), last)
  {
    hide LeastMatch, Matches;
    if attempts != [] {
      var v := Verified(x, attempts[0].submitted, attempts[0].ms, last);
      if v.Accepted? {
        CountersIncrease(x, attempts[1..], Some(v.counter));
      } else {
        CountersIncrease(x, attempts[1..], last);
      }
    }
  }

  /** The acceptances made while the clock lay in an interval. */
  function Between(log: seq<Acceptance>, t1: int, t2: int): (r: seq<Acceptance>)
    ensures forall a :: a in r ==> a in log && t1 <= a.ms <= t2
  {
    if log == [] then []
    else (if t1 <= log[0].ms <= t2 then [log[0]] else []) + Between(log[1..], t1, t2)
  }

  lemma {:induction false} BetweenRises(log: seq<Acceptance>, t1: int, t2: int)
    requires Rising(log)
    ensures Rising(Between(log, t1, t2))
  {
    if log != [] {
      var rest := Between(log[1..], t1, t2);
      assert log == [log[0]] + log[1..];
      RisingCons(log[0], log[1..]);
      BetweenRises(log[1..], t1, t2);
      RisingCons(log[0], rest);
      hide Rising;
    }
  }

  lemma {:induction false} RisingFits(r: seq<Acceptance>, lo: int, hi: int)
    requires Rising(r) && lo <= hi + 1
    requires forall a :: a in r ==> lo <= a.counter <= hi
    ensures |r| <= hi - lo + 1
    decreases |r|
  {
    if r != [] {
      assert r == [r[0]] + r[1..];
      RisingCons(r[0], r[1..]);
      RisingFits(r[1..], r[0].counter + 1, hi);
    }
  }

  lemma CounterGrows(a: int, b: int, stepSeconds: nat)
    requires stepSeconds > 0 && a <= b
    ensures TotpCounter(a, stepSeconds) <= TotpCounter(b, stepSeconds)
  {
    var d := 1000 * stepSeconds;
    if b / d < a / d {
      Scaled(b / d + 1, a / d, d);
      Spread(b / d, 1, d);
    }
  }

  /**
   * However the clock moves, what is accepted while it reads `t1` to `t2` is bounded by the steps
   * that window touches.
   */
  lemma AcceptancesBounded(x: Settings, attempts: seq<Attempt>, last: Option<int>, t1: int, t2: int)
    requires x.stepSeconds > 0 && x.skewSteps >= 0 && t1 <= t2
    ensures |Between(Run(x, attempts, last), t1, t2)| <=
            TotpCounter(t2, x.stepSeconds) - TotpCounter(t1, x.stepSeconds) + 2 * x.skewSteps + 1
  {
    hide Run, TotpCounter, Between;
    var log := Run(x, attempts, last);
    CountersIncrease(x, attempts, last);
    BetweenRises(log, t1, t2);
    CounterGrows(t1, t2, x.stepSeconds);
    var lo, hi := Window(x, t1).0, Window(x, t2).1;
    var r := Between(log, t1, t2);
    forall a | a in r ensures lo <= a.counter <= hi {
      var i :| 0 <= i < |log| && log[i] == a;
      CounterGrows(t1, a.ms, x.stepSeconds);
      CounterGrows(a.ms, t2, x.stepSeconds);
    }
    RisingFits(r, lo, hi);
  }
}
