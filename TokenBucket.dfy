/**
 * The token-bucket rate limiter of token-bucket-ratelimiter.go.
 *
 * Time is an integer number of nanoseconds (the unit of Go's
 * `time.Duration`), so the seconds elapsed are `elapsed / NanosPerSecond`.
 * Each call adds `int(elapsed seconds * rps)` tokens, truncated to a whole
 * number, and then forgets the remainder because the last-request time is
 * reset on every call. This model keeps that integer truncation.
 */
module TokenBucket {

  import opened Time

  function Min(a: int, b: int): int
  {
    if a <= b then a else b
  }

  /**
   * Whole tokens earned over `elapsed` nanoseconds at `rps` tokens a second:
   * Go's `int` conversion truncates toward zero, also for a negative rate.
   */
  function TokensFor(elapsed: int, rps: int): (n: int)
    requires elapsed >= 0
    ensures rps >= 0 ==> n >= 0 && n * NanosPerSecond <= elapsed * rps < (n + 1) * NanosPerSecond
    ensures rps < 0 ==> n <= 0 && (n - 1) * NanosPerSecond < elapsed * rps <= n * NanosPerSecond
  {
    var accrued := elapsed * rps;
    if accrued >= 0 then accrued / NanosPerSecond else -((-accrued) / NanosPerSecond)
  }

  /** The two fields `Allow` updates: the tokens in the bucket and the time of the last call. */
  datatype Bucket = Bucket(tokens: int, latest: int)

  /** The decision of one `Allow` call and the fields it leaves behind. */
  datatype Step = Step(next: Bucket, admitted: bool)

  /** One call of `Allow` at time `now`: refill (capped at `cap`), reset the clock, then consume one token if any. */
  function AllowStep(rps: int, cap: int, b: Bucket, now: int): (s: Step)
    requires b.latest <= now
    ensures s.next.latest == now
    ensures s.admitted ==> s.next.tokens < cap
    ensures !s.admitted ==> s.next.tokens <= 0
    ensures s.next.tokens + (if s.admitted then 1 else 0) <= b.tokens + TokensFor(now - b.latest, rps)
  {
    var refilled := Min(cap, b.tokens + TokensFor(now - b.latest, rps));
    if refilled > 0 then Step(Bucket(refilled - 1, now), true)
    else Step(Bucket(refilled, now), false)
  }

  /** Every call time is at or after the previous one, the first at or after `start`. */
  predicate InOrder(start: int, times: seq<int>)
    decreases |times|
  {
    times == [] || (start <= times[0] && InOrder(times[0], times[1..]))
  }

  /** The fields after a sequence of calls, and how many were admitted. */
  datatype Trace = Trace(last: Bucket, admitted: nat)

  /** Calls of `Allow` at the given times, in order. */
  function Run(rps: int, cap: int, b: Bucket, times: seq<int>): Trace
    requires InOrder(b.latest, times)
    decreases |times|
  {
    if times == [] then Trace(b, 0)
    else
      var s := AllowStep(rps, cap, b, times[0]);
      var t := Run(rps, cap, s.next, times[1..]);
      Trace(t.last, t.admitted + if s.admitted then 1 else 0)
  }

  /** The tokens each call of the sequence earns on its own, summed. */
  function Accrued(rps: int, start: int, times: seq<int>): int
    requires InOrder(start, times)
    decreases |times|
  {
    if times == [] then 0
    else TokensFor(times[0] - start, rps) + Accrued(rps, times[0], times[1..])
  }

  /**
   * A call resets the last-request time to `now` whatever it decides, admits
   * exactly when the refilled bucket is positive, and then takes exactly one
   * token; the refilled bucket never exceeds `cap`.
   */
  lemma AllowOutcomes(rps: int, cap: int, b: Bucket, now: int)
    requires b.latest <= now
    ensures var s := AllowStep(rps, cap, b, now);
      var refilled := s.next.tokens + (if s.admitted then 1 else 0);
      && s.next.latest == now
      && refilled == Min(cap, b.tokens + TokensFor(now - b.latest, rps))
      && refilled <= cap
      && (s.admitted <==> refilled > 0)
  {
  }

  /** With `cap >= 0`, `0 <= tokens <= cap` holds after every call that found it. */
  lemma AllowKeepsTokensInRange(rps: int, cap: int, b: Bucket, now: int)
    requires rps >= 0 && b.latest <= now
    requires 0 <= b.tokens <= cap
    ensures var s := AllowStep(rps, cap, b, now); 0 <= s.next.tokens <= cap
  {
  }

  /**
   * A call whose accrual `elapsed * rps` is under one token's worth adds no
   * token: it only consumes, and the fraction it earned is lost.
   */
  lemma FractionLost(rps: int, cap: int, b: Bucket, now: int)
    requires rps >= 0 && b.latest <= now && 0 <= b.tokens <= cap
    requires (now - b.latest) * rps < NanosPerSecond
    ensures var s := AllowStep(rps, cap, b, now);
      && (s.admitted <==> b.tokens > 0)
      && s.next.tokens == (if b.tokens > 0 then b.tokens - 1 else 0)
  {
  }

  /** Every call comes less than one token's worth of time after the previous one (the first after `start`). */
  predicate RapidCalls(rps: int, start: int, times: seq<int>)
    decreases |times|
  {
    times == [] || ((times[0] - start) * rps < NanosPerSecond && RapidCalls(rps, times[0], times[1..]))
  }

  /**
   * Starvation: from an empty bucket, calls that each come less than one
   * token's worth of time after the previous call are all rejected and the
   * bucket stays empty, however much time they span together.
   */
  lemma {:induction false} RapidPollingStarves(rps: int, cap: int, b: Bucket, times: seq<int>)
    requires rps >= 0 && cap >= 0 && b.tokens == 0 && InOrder(b.latest, times)
    requires RapidCalls(rps, b.latest, times)
    ensures Run(rps, cap, b, times).admitted == 0
    ensures Run(rps, cap, b, times).last.tokens == 0
    decreases |times|
  {
    if times != [] {
      var s := AllowStep(rps, cap, b, times[0]);
      assert s.next == Bucket(0, times[0]) && !s.admitted;
      RapidPollingStarves(rps, cap, s.next, times[1..]);
    }
  }

  /**
   * Each admission consumes a token that was in the bucket or was earned by
   * some call: admissions plus the tokens left never exceed the starting
   * tokens plus what the calls earned.
   */
  lemma {:induction false} AdmissionsBoundedByAccrual(rps: int, cap: int, b: Bucket, times: seq<int>)
    requires InOrder(b.latest, times)
    ensures var t := Run(rps, cap, b, times);
      t.admitted + t.last.tokens <= b.tokens + Accrued(rps, b.latest, times)
    decreases |times|
  {
    if times != [] {
      var s := AllowStep(rps, cap, b, times[0]);
      AdmissionsBoundedByAccrual(rps, cap, s.next, times[1..]);
    }
  }

  /**
   * At 10 tokens a second with capacity 10, an empty bucket that waits half
   * a second admits exactly 5 of 6 calls made at that instant.
   */
  lemma HalfSecondRefill()
    ensures var t := NanosPerSecond / 2;
      InOrder(0, [t, t, t, t, t, t]) && Run(10, 10, Bucket(0, 0), [t, t, t, t, t, t]).admitted == 5
  {
    var t := NanosPerSecond / 2;
    var calls := [t, t, t, t, t, t];
    assert InOrder(t, calls[5..]);
    assert InOrder(t, calls[4..]);
    assert InOrder(t, calls[3..]);
    assert InOrder(t, calls[2..]);
    assert InOrder(t, calls[1..]);
    assert InOrder(0, calls);
    assert Run(10, 10, Bucket(0, t), calls[5..]).admitted == 0;
    assert Run(10, 10, Bucket(1, t), calls[4..]).admitted == 1;
    assert Run(10, 10, Bucket(2, t), calls[3..]).admitted == 2;
    assert Run(10, 10, Bucket(3, t), calls[2..]).admitted == 3;
    assert Run(10, 10, Bucket(4, t), calls[1..]).admitted == 4;
    assert AllowStep(10, 10, Bucket(0, 0), t) == Step(Bucket(4, t), true);
  }

  /** The limiter object: `rps` and `cap` are fixed; `bucket` and `latestRequest` change. */
  class TokenBucketRateLimiter {
    const rps: int
    const cap: int
    var bucket: int
    var latestRequest: int

    /** The bucket never holds more than `cap`. */
    ghost predicate Valid()
      reads this
    {
      bucket <= cap
    }

    /** `NewTokenBucketRateLimiter`: the bucket starts full. */
    constructor (rps: int, cap: int, now: int)
      ensures this.rps == rps && this.cap == cap
      ensures bucket == cap && latestRequest == now
      ensures Valid()
    {
      this.rps := rps;
      this.cap := cap;
      bucket := cap;
      latestRequest := now;
    }

    method Allow(now: int) returns (ok: bool)
      requires Valid() && latestRequest <= now
      modifies this
      ensures Valid()
      ensures Step(Bucket(bucket, latestRequest), ok) == AllowStep(rps, cap, old(Bucket(bucket, latestRequest)), now)
    {
      var accrued := (now - latestRequest) * rps;
      var tokenToAdd := if accrued >= 0 then accrued / NanosPerSecond else -((-accrued) / NanosPerSecond);
      bucket := Min(cap, bucket + tokenToAdd);
      latestRequest := now;
      if bucket > 0 {
        bucket := bucket - 1;
        return true;
      }
      return false;
    }
  }
}
