/** The client's retry loop and its delays (sdk/retry.go), over Go's int64: shifts
    and sums wrap around, and division truncates toward zero. */
module Backoff {

  import opened GoInt

  function Pow2(k: nat): (p: nat)
    ensures p > 0
  {
    if k == 0 then 1 else 2 * Pow2(k - 1)
  }

  function ShiftLeft(x: Int64, k: nat): Int64 {
    Wrap(x * Pow2(k))
  }

  function Quarter(x: Int64): Int64 {
    if x >= 0 then x / 4 else -((0 - x as int) / 4)
  }

  const MAX_SHIFT := 62

  /** The delay before jitter. */
  function PreJitter(baseDelay: Int64, maxDelay: Int64, attempt: int): Int64 {
    if 0 <= attempt < MAX_SHIFT && 0 < ShiftLeft(baseDelay, attempt) < maxDelay
    then ShiftLeft(baseDelay, attempt)
    else maxDelay
  }

  function Min(a: int, b: int): int {
    if a <= b then a else b
  }

  // ----- the delay before jitter is the capped exponential -----

  lemma {:induction false} Pow2Sum(j: nat, k: nat)
    ensures Pow2(j + k) == Pow2(j) * Pow2(k)
  {
    if j > 0 {
      Pow2Sum(j - 1, k);
      assert Pow2(j + k) == 2 * Pow2(j - 1 + k);
    }
  }

  lemma Pow2Of62And64()
    ensures Pow2(62) == TWO_62 && Pow2(64) == TWO_64
  {
    assert Pow2(8) == 256;
    Pow2Sum(8, 8);
    Pow2Sum(16, 16);
    Pow2Sum(32, 16);
    Pow2Sum(48, 8);
    assert Pow2(6) == 64;
    Pow2Sum(56, 6);
    Pow2Sum(62, 2);
    assert Pow2(2) == 4;
  }

  lemma {:induction false} Pow2Grows(j: nat, k: nat)
    requires j <= k
    ensures Pow2(j) <= Pow2(k)
    decreases k - j
  {
    if j < k {
      Pow2Grows(j, k - 1);
    }
  }

  lemma MulLess(c: int, a: int, b: int)
    requires c > 0
    ensures c * a < c * b <==> a < b
  {
    if a < b {
      assert c * (b - a) > 0;
    } else {
      assert c * (a - b) >= 0;
    }
  }

  /** A wrapped shift is still a multiple of the power of two, so when it comes out
      positive it is at least that power. */
  lemma WrappedShift(x: Int64, k: nat)
    requires k <= 64
    ensures ShiftLeft(x, k) > 0 ==> ShiftLeft(x, k) >= Pow2(k)
  {
    var p, rest := Pow2(k), Pow2(64 - k);
    Pow2Sum(k, 64 - k);
    Pow2Of62And64();
    var q := WrapSubtracts(x * p);
    MultipleOf(x, p, q, rest);
    MulLess(p, 0, x - q * rest);
    MulLess(p, x - q * rest, 1);
  }

  lemma MultipleOf(x: int, p: int, q: int, rest: int)
    ensures x * p - q * (p * rest) == p * (x - q * rest)
  {
    assert q * (p * rest) == p * (q * rest);
    assert p * (x - q * rest) == p * x - p * (q * rest);
  }

  /** Attempt a waits what the documentation says, jitter aside. */
  predicate IsExact(baseDelay: Int64, maxDelay: Int64, attempt: nat) {
    PreJitter(baseDelay, maxDelay, attempt) == Min(baseDelay * Pow2(attempt), maxDelay)
  }

  /** The shift is taken, and what comes out of it is used. */
  predicate UsesShift(baseDelay: Int64, maxDelay: Int64, attempt: nat) {
    attempt < MAX_SHIFT && 0 < ShiftLeft(baseDelay, attempt) < maxDelay
  }

  /** For any base, cap and attempt: a shift that is used must not have wrapped, and
      where none is used the cap must be no longer than the formula's delay. */
  lemma ExactIff(baseDelay: Int64, maxDelay: Int64, attempt: nat)
    ensures IsExact(baseDelay, maxDelay, attempt) <==>
            if UsesShift(baseDelay, maxDelay, attempt) then -TWO_63 <= baseDelay * Pow2(attempt) < TWO_63
            else maxDelay <= baseDelay * Pow2(attempt)
  {
    var product := baseDelay * Pow2(attempt);
    if -TWO_63 <= product < TWO_63 {
      WrapInRange(product);
    }
  }

  /** Some product leaves int64 and comes back as a delay under the cap. */
  predicate WrapsBelow(baseDelay: Int64, maxDelay: Int64) {
    exists attempt: nat :: attempt < MAX_SHIFT && baseDelay * Pow2(attempt) >= TWO_63 &&
      UsesShift(baseDelay, maxDelay, attempt)
  }

  /** For which bases and caps every attempt is exact: never for a negative base; for a
      cap that is not positive; and for a positive base whose last shift reaches the
      cap, unless one of its shifts wraps to a delay under the cap. */
  lemma AlwaysExactIff(baseDelay: Int64, maxDelay: Int64)
    ensures (forall attempt: nat :: IsExact(baseDelay, maxDelay, attempt)) <==>
            baseDelay >= 0 &&
            (maxDelay <= 0 || (baseDelay > 0 && maxDelay <= baseDelay * TWO_62 && !WrapsBelow(baseDelay, maxDelay)))
  {
    Pow2Of62And64();
    if baseDelay < 0 {
      MulLess(TWO_64, baseDelay, 0);
      MulLess(TWO_64, baseDelay, -1);
      assert baseDelay * TWO_64 <= -TWO_64;
      ExactIff(baseDelay, maxDelay, 64);
      assert !IsExact(baseDelay, maxDelay, 64);
    } else if baseDelay == 0 {
      ExactIff(baseDelay, maxDelay, 62);
      forall attempt: nat
        ensures IsExact(baseDelay, maxDelay, attempt) <==> maxDelay <= 0
      {
        WrapInRange(0);
      }
    } else {
      PositiveBase(baseDelay, maxDelay);
    }
  }

  lemma PositiveBase(baseDelay: Int64, maxDelay: Int64)
    requires baseDelay > 0
    ensures (forall attempt: nat :: IsExact(baseDelay, maxDelay, attempt)) <==>
            maxDelay <= 0 || (maxDelay <= baseDelay * TWO_62 && !WrapsBelow(baseDelay, maxDelay))
  {
    Pow2Of62And64();
    if maxDelay <= 0 || (maxDelay <= baseDelay * TWO_62 && !WrapsBelow(baseDelay, maxDelay)) {
      forall attempt: nat
        ensures IsExact(baseDelay, maxDelay, attempt)
      {
        UnwrappedIsExact(baseDelay, maxDelay, attempt);
      }
    } else if maxDelay > baseDelay * TWO_62 {
      ExactIff(baseDelay, maxDelay, 62);
      assert !IsExact(baseDelay, maxDelay, 62);
    } else {
      var attempt: nat :|
        attempt < MAX_SHIFT && baseDelay * Pow2(attempt) >= TWO_63 && UsesShift(baseDelay, maxDelay, attempt);
      ExactIff(baseDelay, maxDelay, attempt);
      assert !IsExact(baseDelay, maxDelay, attempt);
    }
  }

  lemma UnwrappedIsExact(baseDelay: Int64, maxDelay: Int64, attempt: nat)
    requires baseDelay > 0
    requires maxDelay <= 0 || (maxDelay <= baseDelay * TWO_62 && !WrapsBelow(baseDelay, maxDelay))
    ensures IsExact(baseDelay, maxDelay, attempt)
  {
    ExactIff(baseDelay, maxDelay, attempt);
    var product := baseDelay * Pow2(attempt);
    MulLess(Pow2(attempt), 0, baseDelay);
    assert product > 0;
    if attempt >= MAX_SHIFT {
      Pow2Of62And64();
      Pow2Grows(62, attempt);
      MulLess(baseDelay, Pow2(attempt), Pow2(62));
    } else if product < TWO_63 {
      WrapInRange(product);
    }
  }

  /** The default base of 100 milliseconds and cap of 5 seconds are far inside
      these bounds, and so is any base of at least a nanosecond under a cap whose
      product with it stays within int64. */
  lemma Exact(baseDelay: Int64, maxDelay: Int64, attempt: nat)
    requires baseDelay >= 1 && 0 <= maxDelay <= TWO_62 && baseDelay * maxDelay <= TWO_63
    ensures PreJitter(baseDelay, maxDelay, attempt) == Min(baseDelay * Pow2(attempt), maxDelay)
  {
    MulLess(TWO_62, baseDelay, 1);
    forall a: nat | a < MAX_SHIFT && baseDelay * Pow2(a) >= TWO_63
      ensures !UsesShift(baseDelay, maxDelay, a)
    {
      WrappedShift(baseDelay, a);
      MulLess(baseDelay, Pow2(a), maxDelay);
    }
    UnwrappedIsExact(baseDelay, maxDelay, attempt);
  }

  lemma Monotone(baseDelay: Int64, maxDelay: Int64, earlier: nat, later: nat)
    requires baseDelay >= 1 && 0 <= maxDelay <= TWO_62 && baseDelay * maxDelay <= TWO_63
    requires earlier <= later
    ensures PreJitter(baseDelay, maxDelay, earlier) <= PreJitter(baseDelay, maxDelay, later)
  {
    Exact(baseDelay, maxDelay, earlier);
    Exact(baseDelay, maxDelay, later);
    Pow2Grows(earlier, later);
    MulLess(baseDelay, Pow2(later), Pow2(earlier));
  }

  /** Outside those bounds the documented formula fails: with a base of 2^32+1
      nanoseconds (4.3 seconds) and a cap of 2^33, attempt 32 wraps back to 2^32,
      under the delay of attempt 1. */
  lemma WrapsToAShorterDelay()
    ensures PreJitter(0x1_0000_0001, 0x2_0000_0000, 32) == 0x1_0000_0000 < PreJitter(0x1_0000_0001, 0x2_0000_0000, 1)
    ensures Min(0x1_0000_0001 * Pow2(32), 0x2_0000_0000) == 0x2_0000_0000
  {
    assert Pow2(8) == 256;
    Pow2Sum(8, 8);
    Pow2Sum(16, 16);
    assert Pow2(32) == 0x1_0000_0000;
    assert 0x1_0000_0001 * 0x1_0000_0000 % TWO_64 == 0x1_0000_0000;
    assert Pow2(1) == 2;
  }

  /** Without a base delay, which the options accept, the formula waits for nothing and
      the code waits for the whole cap, every time. */
  lemma ZeroBaseWaitsTheCap(maxDelay: Int64, attempt: nat)
    requires maxDelay > 0
    ensures PreJitter(0, maxDelay, attempt) == maxDelay && Min(0 * Pow2(attempt), maxDelay) == 0
  {
    WrapInRange(0);
  }

  /** Under a cap beyond 2^62 nanoseconds (146 years), a base of one nanosecond jumps
      to the cap when the shifts run out. */
  lemma HugeCapJumps()
    ensures PreJitter(1, TWO_63 - 1, 62) == TWO_63 - 1 && Min(1 * Pow2(62), TWO_63 - 1) == TWO_62
  {
    Pow2Of62And64();
  }

  // ----- the delay itself -----

  datatype Delay = Delay(delay: Int64) | Panics

  /** Division by four cuts off towards zero. */
  lemma QuarterTruncates(x: Int64)
    ensures x >= 0 ==> 4 * Quarter(x) <= x < 4 * Quarter(x) + 4
    ensures x <= 0 ==> 4 * Quarter(x) - 4 < x <= 4 * Quarter(x)
  {
  }

  /** Between the delay before jitter and a quarter more, never above the cap. */
  predicate Jittered(baseDelay: Int64, maxDelay: Int64, attempt: int, delay: Int64) {
    var pre := PreJitter(baseDelay, maxDelay, attempt);
    pre <= delay <= maxDelay && (if pre >= 0 then 4 * (delay - pre) <= pre else delay == pre)
  }

  /** The longest jittered delay stays within int64. */
  predicate RoomForJitter(delay: Int64) {
    delay + Quarter(delay) < TWO_63
  }

  function Lengthened(delay: Int64, jitter: nat): Int64 {
    Wrap(delay + jitter)
  }

  /** Without that room the longest draw wraps to a delay below the one it lengthens. */
  lemma JitterNeedsRoom(delay: Int64)
    requires delay >= 0
    ensures (forall jitter: nat | jitter <= Quarter(delay) :: delay <= Lengthened(delay, jitter)) <==>
            RoomForJitter(delay)
  {
    if RoomForJitter(delay) {
      forall jitter: nat | jitter <= Quarter(delay)
        ensures delay <= Lengthened(delay, jitter)
      {
        WrapInRange(delay + jitter);
      }
    } else {
      assert Lengthened(delay, Quarter(delay)) < delay;
    }
  }

  /** random stands for the draw: modulo the bound it is any value rand.Int64N can
      return, and a bound that is not positive makes rand.Int64N panic. */
  method BackoffDelay(baseDelay: Int64, maxDelay: Int64, attempt: int, random: nat) returns (r: Delay)
    ensures r.Panics? <==> maxDelay <= -4
    ensures attempt < 0 ==> PreJitter(baseDelay, maxDelay, attempt) == maxDelay
    ensures r.Delay? ==>
              var pre := PreJitter(baseDelay, maxDelay, attempt);
              Quarter(pre) >= 0 && r.delay == Min(Wrap(pre + random % (Quarter(pre) + 1)), maxDelay)
    ensures r.Delay? && RoomForJitter(PreJitter(baseDelay, maxDelay, attempt)) ==>
              Jittered(baseDelay, maxDelay, attempt, r.delay)
    ensures r.Delay? && RoomForJitter(PreJitter(baseDelay, maxDelay, attempt)) ==>
              var pre := PreJitter(baseDelay, maxDelay, attempt);
              pre <= r.delay <= maxDelay && (pre >= 0 ==> 4 * (r.delay - pre) <= pre)
  {
    var delay := maxDelay;

    if 0 <= attempt < MAX_SHIFT {
      var shifted := ShiftLeft(baseDelay, attempt);
      if 0 < shifted < maxDelay {
        delay := shifted;
      }
    }

    var bound := Wrap(Quarter(delay) + 1);
    WrapInRange(Quarter(delay) + 1);
    if bound <= 0 {
      return Panics;
    }

    var jitter := random % bound;
    delay := Wrap(delay + jitter);
    if RoomForJitter(PreJitter(baseDelay, maxDelay, attempt)) {
      WrapInRange(PreJitter(baseDelay, maxDelay, attempt) + jitter);
    }

    if delay > maxDelay {
      delay := maxDelay;
    }
    return Delay(delay);
  }

  // ----- the loop around it -----

  datatype Reply = Ok | Unavailable(detail: nat) | Refused(detail: nat)

  datatype Outcome = Succeeded | Failed(reply: Reply) | ContextDone | DelayPanicked

  /** None of these attempts ends the call. */
  ghost predicate NoneEnds(reply: int -> Reply, gone: int -> bool, maxRetries: nat, attempts: nat) {
    forall i: nat | i < attempts :: reply(i).Unavailable? && i != maxRetries && !gone(i)
  }

  /** Wait i is a delay for attempt i. */
  ghost predicate AllJittered(baseDelay: Int64, maxDelay: Int64, waits: seq<Int64>) {
    forall i | 0 <= i < |waits| :: Jittered(baseDelay, maxDelay, i, waits[i])
  }

  lemma OneMoreWait(baseDelay: Int64, maxDelay: Int64, waits: seq<Int64>, wait: Int64)
    requires AllJittered(baseDelay, maxDelay, waits) && Jittered(baseDelay, maxDelay, |waits|, wait)
    ensures AllJittered(baseDelay, maxDelay, waits + [wait])
  {
  }

  /** reply(i) is what attempt i returns; gone(i) says that the context ends during
      the wait after attempt i; draw(i) is the randomness of that wait.  A negative
      maxRetries makes no call and reports success, and so does the largest, whose
      successor wraps around. */
  method Invoke(
    maxRetries: Int64, baseDelay: Int64, maxDelay: Int64, reply: int -> Reply, gone: int -> bool, draw: int -> nat)
    returns (outcome: Outcome, calls: nat, waits: seq<Int64>)
    ensures maxRetries < 0 || maxRetries == TWO_63 - 1 ==> outcome == Succeeded && calls == 0
    ensures 0 <= maxRetries < TWO_63 - 1 && maxDelay > -4 ==>
              && 1 <= calls <= maxRetries + 1
              && (forall i | 0 <= i < calls - 1 :: reply(i).Unavailable? && !gone(i))
              && (outcome == Succeeded <==> reply(calls - 1).Ok?)
              && (outcome == ContextDone <==> reply(calls - 1).Unavailable? && calls <= maxRetries)
              && (outcome == ContextDone ==> gone(calls - 1))
              && (outcome.Failed? <==>
                    reply(calls - 1).Refused? || (reply(calls - 1).Unavailable? && calls > maxRetries))
              && (outcome.Failed? ==> outcome.reply == reply(calls - 1))
    ensures 0 <= maxRetries < TWO_63 - 1 && maxDelay > -4 ==>
            |waits| == calls - (if outcome == ContextDone then 0 else 1)
    ensures outcome == DelayPanicked <==> 0 < maxRetries < TWO_63 - 1 && maxDelay <= -4 && reply(0).Unavailable?
    ensures maxDelay <= TWO_62 ==> AllJittered(baseDelay, maxDelay, waits)
  {
    var lastErr := Ok;
    calls, waits := 0, [];
    var attempts := Wrap(maxRetries + 1);
    if maxRetries < TWO_63 - 1 {
      WrapInRange(maxRetries + 1);
    }
    for attempt := 0 to if attempts < 0 then 0 else attempts as nat
      invariant calls == attempt == |waits|
      invariant attempt == 0 ==> lastErr == Ok
      invariant maxRetries >= 0 ==> NoneEnds(reply, gone, maxRetries, attempt)
      invariant maxDelay <= TWO_62 ==> AllJittered(baseDelay, maxDelay, waits)
      invariant attempt > 0 ==> maxDelay > -4
    {
      lastErr := reply(attempt);
      calls := calls + 1;
      if lastErr.Ok? {
        return Succeeded, calls, waits;
      }
      if !lastErr.Unavailable? {
        return Failed(lastErr), calls, waits;
      }
      if attempt == maxRetries {
        break;
      }

      var delay := BackoffDelay(baseDelay, maxDelay, attempt, draw(attempt));
      if delay.Panics? {
        return DelayPanicked, calls, waits;
      }
      if maxDelay <= TWO_62 {
        OneMoreWait(baseDelay, maxDelay, waits, delay.delay);
      }
      waits := waits + [delay.delay];
      if gone(attempt) {
        return ContextDone, calls, waits;
      }
    }
    outcome := if lastErr.Ok? then Succeeded else Failed(lastErr);
  }
}
